/** The resource registry file (`resources.cfg` by default) of cmd_resources.go: the text
    it is written as, the names read back from it, and the append-only merge of newly
    fetched resources into it. Reading and writing the file itself are outside the model;
    what remains are the text-to-names and names-to-text functions. */
module Registry {
  import opened Wrappers
  import opened Seqs
  import opened Text
  import opened Discovery

  const HeaderGenerated := "# THIS FILE IS AUTOMATICALLY-GENERATED\r"
  /** One line of text; it is written as two literals because the verifier does not look
      inside string literals this long. */
  const HeaderStartOnly := "# DO NOT ADD ANYTHING " + "OTHER THAN `start` LINES\r"
  const StartPrefix := "start "

  /** One `start <name>` line, without its terminating newline. */
  function StartLine(name: string): string {
    StartPrefix + name + "\r"
  }

  function Lines(names: seq<string>): string {
    if names == [] then "" else StartLine(names[0]) + "\n" + Lines(names[1..])
  }

  /** `writeResourceLines`: the whole file, a two-line comment header followed by one
      CRLF-terminated `start` line per name, in order. */
  function Write(names: seq<string>): string {
    HeaderGenerated + "\n" + HeaderStartOnly + "\n" + Lines(names)
  }

  /** What one line contributes: the trimmed second space-separated field of a line that
      begins with `start `, nothing for any other line. */
  function ParseLine(line: string): (r: Option<string>)
    ensures r.Some? <==> StartPrefix <= line
  {
    if StartPrefix <= line then
      var fields := Split(line, ' ');
      assert line == StartPrefix + line[|StartPrefix|..];
      SplitFirstPiece("start", ' ', line[|StartPrefix|..]);
      if |fields| >= 2 then Some(TrimSpace(fields[1])) else None
    else None
  }

  /** A `start` line gives the trimmed text between `start ` and the next space (or the
      end of the line). */
  lemma ParseLineField(line: string)
    requires StartPrefix <= line
    ensures ParseLine(line) == Some(TrimSpace(Split(line[|StartPrefix|..], ' ')[0]))
  {
    var rest := line[|StartPrefix|..];
    assert line == "start" + [' '] + rest;
    SplitFirstPiece("start", ' ', rest);
  }

  /** The names of the `start` lines among `lines`, in order. */
  function ParseLines(lines: seq<string>): (r: seq<string>)
    ensures |r| <= |lines|
    ensures (forall k :: 0 <= k < |lines| ==> !(StartPrefix <= lines[k])) ==> r == []
  {
    if lines == [] then []
    else (if ParseLine(lines[0]).Some? then [ParseLine(lines[0]).value] else []) + ParseLines(lines[1..])
  }

  /** A name the file can carry and give back unchanged: no space (it would end the
      field), no newline (it would end the line) and no white space at either end. */
  predicate ValidName(n: string) {
    ' ' !in n && '\n' !in n && Trimmed(n)
  }

  /** `parseResourceLines` on the file's text: the names of the `start` lines, in line
      order. A missing file reads as the empty text and so gives no names. */
  function Parse(text: string): (r: seq<string>)
    ensures |r| <= |Split(text, '\n')|
    ensures forall i :: 0 <= i < |r| ==> ValidName(r[i])
  {
    var lines := Split(text, '\n');
    ParseLinesValid(lines);
    ParseLines(lines)
  }

  lemma {:induction false} ParseLinesValid(lines: seq<string>)
    requires forall k :: 0 <= k < |lines| ==> '\n' !in lines[k]
    ensures |ParseLines(lines)| <= |lines|
    ensures forall i :: 0 <= i < |ParseLines(lines)| ==> ValidName(ParseLines(lines)[i])
    decreases |lines|
  {
    if lines != [] {
      ParseLinesValid(lines[1..]);
      var p := ParseLine(lines[0]);
      if p.Some? {
        var f := Split(lines[0], ' ')[1];
        assert ' ' !in f;
        assert '\n' !in f by { SplitPieceWithin(lines[0], ' ', 1); }
        TrimSpaceWithin(f);
      }
    }
  }

  /** Every character of a piece of `Split(s, sep)` occurs in `s`. */
  lemma {:induction false} SplitPieceWithin(s: string, sep: char, k: nat)
    requires k < |Split(s, sep)|
    ensures forall c :: c in Split(s, sep)[k] ==> c in s
    decreases |s|
  {
    if sep in s {
      var i := IndexOf(s, sep);
      assert Split(s, sep) == [s[..i]] + Split(s[i + 1..], sep);
      if k > 0 {
        SplitPieceWithin(s[i + 1..], sep, k - 1);
        SliceWithin(s[i + 1..], s, i + 1);
      } else {
        SliceWithin(s[..i], s, 0);
      }
    }
  }

  /** Trimming keeps no character the input lacks. */
  lemma TrimSpaceWithin(s: string)
    ensures forall c :: c in TrimSpace(s) ==> c in s
  {
    var r := TrimSpace(s);
    TrimSpaceIsSlice(s);
    var i :| 0 <= i <= |s| - |r| && r <= s[i..];
    SliceWithin(r, s, i);
  }

  /** The `start` line of a valid name reads back as that name: the carriage return is
      white space and `TrimSpace` removes it. */
  lemma StartLineReadsBack(n: string)
    requires ValidName(n)
    ensures ParseLine(StartLine(n)) == Some(n)
  {
    var line := StartLine(n);
    assert line == "start" + [' '] + (n + "\r");
    SplitFirstPiece("start", ' ', n + "\r");
    assert ' ' !in n + "\r";
    assert Split(line, ' ') == ["start", n + "\r"];
    TrimSpaceDropsTrailingSpace(n, '\r');
    TrimSpaceOfTrimmed(n);
  }

  /** The `start` lines of `names`, one per name, in order. */
  function StartLines(names: seq<string>): seq<string> {
    if names == [] then [] else [StartLine(names[0])] + StartLines(names[1..])
  }

  lemma LinesReadBack(names: seq<string>)
    requires forall i :: 0 <= i < |names| ==> ValidName(names[i])
    ensures ParseLines(Split(Lines(names), '\n')) == names
  {
    SplitLines(names);
    ParseStartLines(names);
  }

  /** The text of `Lines` splits into its `start` lines and the empty piece after the
      final newline. */
  lemma {:induction false} SplitLines(names: seq<string>)
    requires forall i :: 0 <= i < |names| ==> '\n' !in names[i]
    ensures Split(Lines(names), '\n') == StartLines(names) + [""]
    decreases |names|
  {
    if names == [] {
      assert Split("", '\n') == [""];
    } else {
      assert forall i :: 0 <= i < |names[1..]| ==> names[1..][i] == names[i + 1];
      LinesSplit(names);
      SplitLines(names[1..]);
      assert [StartLine(names[0])] + (StartLines(names[1..]) + [""])
          == ([StartLine(names[0])] + StartLines(names[1..])) + [""];
    }
  }

  /** The `start` lines of valid names, followed by an empty line, read back as the names. */
  lemma {:induction false} ParseStartLines(names: seq<string>)
    requires forall i :: 0 <= i < |names| ==> ValidName(names[i])
    ensures ParseLines(StartLines(names) + [""]) == names
    decreases |names|
  {
    if names == [] {
      assert ParseLine("") == None;
      ParseLinesCons("", []);
      assert [""] == [""] + [];
    } else {
      var rest := StartLines(names[1..]) + [""];
      calc {
        ParseLines(StartLines(names) + [""]);
      == { assert StartLines(names) + [""] == [StartLine(names[0])] + rest; }
        ParseLines([StartLine(names[0])] + rest);
      == { ParseLinesCons(StartLine(names[0]), rest);
           StartLineReadsBack(names[0]); }
        [names[0]] + ParseLines(rest);
      == { assert forall i :: 0 <= i < |names[1..]| ==> names[1..][i] == names[i + 1];
           ParseStartLines(names[1..]); }
        [names[0]] + names[1..];
      ==
        names;
      }
    }
  }

  /** The first line of a non-empty `Lines` text is the first `start` line. */
  lemma LinesSplit(names: seq<string>)
    requires names != [] && '\n' !in names[0]
    ensures Split(Lines(names), '\n') == [StartLine(names[0])] + Split(Lines(names[1..]), '\n')
  {
    var n := names[0];
    assert '\n' !in StartLine(n) by {
      assert StartLine(n) == StartPrefix + n + "\r";
    }
    assert Lines(names) == StartLine(n) + ['\n'] + Lines(names[1..]);
    SplitFirstPiece(StartLine(n), '\n', Lines(names[1..]));
  }

  lemma ParseLinesCons(line: string, rest: seq<string>)
    ensures ParseLines([line] + rest)
         == (if ParseLine(line).Some? then [ParseLine(line).value] else []) + ParseLines(rest)
  {
    assert ([line] + rest)[0] == line && ([line] + rest)[1..] == rest;
  }

  /** Round trip: reading back what `Write` produced gives the names written, for names
      with no spaces, no newlines and no white space at either end. */
  lemma RoundTrip(names: seq<string>)
    requires forall i :: 0 <= i < |names| ==> ValidName(names[i])
    ensures Parse(Write(names)) == names
  {
    ParseWrite(names);
    LinesReadBack(names);
  }

  /** The header contributes no names: reading a written file reads its `start` lines. */
  lemma ParseWrite(names: seq<string>)
    ensures Parse(Write(names)) == ParseLines(Split(Lines(names), '\n'))
  {
    var rest := HeaderStartOnly + "\n" + Lines(names);
    assert Write(names) == HeaderGenerated + "\n" + rest;
    HeaderIsComment();
    SplitFirstPiece(HeaderGenerated, '\n', rest);
    SplitFirstPiece(HeaderStartOnly, '\n', Lines(names));
    var body := Split(Lines(names), '\n');
    assert Split(Write(names), '\n') == [HeaderGenerated] + ([HeaderStartOnly] + body);
    assert ParseLines([HeaderGenerated] + ([HeaderStartOnly] + body)) == ParseLines([HeaderStartOnly] + body);
    assert ParseLines([HeaderStartOnly] + body) == ParseLines(body);
  }

  /** The two header lines are not `start` lines and carry no newline. */
  lemma HeaderIsComment()
    ensures ParseLine(HeaderGenerated) == None && ParseLine(HeaderStartOnly) == None
    ensures '\n' !in HeaderGenerated && '\n' !in HeaderStartOnly
  {
    assert HeaderGenerated[0] == '#' && HeaderStartOnly[0] == '#';
    HeaderOneLine();
  }

  /** Neither header line holds a newline. */
  lemma HeaderOneLine()
    ensures '\n' !in HeaderGenerated && '\n' !in HeaderStartOnly
  {
    assert '\n' !in "# DO NOT ADD ANYTHING " && '\n' !in "OTHER THAN `start` LINES\r";
  }

  /** A name holding a space does not survive the file: `a b` is written as
      `start a b` and read back as `a` alone. */
  lemma SpacedNameTruncated(a: string, b: string)
    requires ValidName(a) && '\n' !in b
    ensures Parse(Write([a + " " + b])) == [a]
  {
    var n := a + " " + b;
    var line := StartLine(n);
    ParseWrite([n]);
    SpacedLine(a, b);
    assert '\n' !in n;
    SplitLines([n]);
    assert StartLines([n]) + [""] == [line] + [""];
    ParseLinesCons(line, [""]);
    ParseLinesCons("", []);
  }

  /** The `start` line of `a b` gives `a`. */
  lemma SpacedLine(a: string, b: string)
    requires ValidName(a)
    ensures ParseLine(StartLine(a + " " + b)) == Some(a)
  {
    var line := StartLine(a + " " + b);
    var rest := a + [' '] + (b + "\r");
    assert line == StartPrefix + rest;
    ParseLineField(line);
    assert line[|StartPrefix|..] == rest;
    SplitFirstPiece(a, ' ', b + "\r");
    TrimSpaceOfTrimmed(a);
  }

  /** Hence registering a resource whose name holds a space is not idempotent: the
      second run no longer finds the name and appends it once more. */
  lemma SpacedNameReRegistered(a: string, b: string, res: Resource)
    requires ValidName(a) && '\n' !in b && res.name == a + " " + b
    ensures AddResources(NoFile, [res]) == Success(Write([res.name]))
    ensures AddResources(Contents(Write([res.name])), [res]) == Success(Write([a, res.name]))
    ensures Write([a, res.name]) != Write([res.name])
  {
    SpacedFirstRun(res);
    SpacedSecondRun(a, b, res);
    WriteGrows(a, res.name);
  }

  lemma SpacedFirstRun(res: Resource)
    ensures AddResources(NoFile, [res]) == Success(Write([res.name]))
  {
    assert Names([res]) == [res.name];
    AddResourcesWrites(NoFile, [res]);
    HeaderOnlyFileIsEmpty();
    assert Merge([], [res.name]) == [res.name];
  }

  lemma SpacedSecondRun(a: string, b: string, res: Resource)
    requires ValidName(a) && '\n' !in b && res.name == a + " " + b
    ensures AddResources(Contents(Write([res.name])), [res]) == Success(Write([a, res.name]))
  {
    var n := res.name;
    assert Names([res]) == [n];
    assert n != a by { assert |n| > |a|; }
    AddResourcesWrites(Contents(Write([n])), [res]);
    SpacedNameTruncated(a, b);
    assert Merge([a], [n]) == [a, n];
  }

  /** A name written in front of others lengthens the file. */
  lemma WriteGrows(a: string, n: string)
    ensures |Write([a, n])| > |Write([n])|
  {
    assert Lines([a, n]) == StartLine(a) + "\n" + Lines([n]) by {
      assert [a, n][1..] == [n];
    }
  }

  /** `addResources` writes the merge of the registered names with the new ones. */
  lemma AddResourcesWrites(read: FileRead, resources: seq<Resource>)
    requires !read.Unreadable?
    ensures AddResources(read, resources) == Success(Write(Merge(Parse(TextOf(read)), Names(resources))))
  {
  }

  /** The registry ignores comment and blank lines. */
  lemma HeaderOnlyFileIsEmpty()
    ensures Parse(Write([])) == []
    ensures Parse("") == []
  {
    RoundTrip([]);
  }

  /** The merge loop of `addResources`: each new name is appended unless the list being
      built already holds it. */
  function Merge(existing: seq<string>, names: seq<string>): (r: seq<string>)
    ensures IsPrefix(existing, r)
    ensures Elems(r) == Elems(existing) + Elems(names)
    decreases |names|
  {
    if names == [] then existing
    else
      var next := if names[0] in existing then existing else existing + [names[0]];
      assert Elems(names) == {names[0]} + Elems(names[1..]) by { assert names == [names[0]] + names[1..]; }
      Merge(next, names[1..])
  }

  /** On a duplicate-free list, merging appends exactly the first occurrences of the
      names not yet present, in their order. */
  lemma {:induction false} MergeIsDedup(existing: seq<string>, names: seq<string>)
    requires NoDup(existing)
    ensures Merge(existing, names) == existing + DedupAfter(names, existing)
    decreases |names|
  {
    if names != [] {
      if names[0] in existing {
        MergeIsDedup(existing, names[1..]);
      } else {
        var next := existing + [names[0]];
        assert NoDup(next) by {
          assert forall i :: 0 <= i < |existing| ==> next[i] == existing[i];
        }
        var rest := DedupAfter(names[1..], next);
        assert Merge(existing, names) == next + rest by {
          MergeIsDedup(next, names[1..]);
        }
        assert existing + DedupAfter(names, existing) == next + rest by {
          assert DedupAfter(names, existing) == [names[0]] + rest;
          assert existing + ([names[0]] + rest) == next + rest;
        }
      }
    }
  }

  /** On any list, duplicates included, merging appends only names the list does not
      hold, and each of them once. */
  lemma MergeAppendsOnlyNew(existing: seq<string>, names: seq<string>)
    ensures forall i :: |existing| <= i < |Merge(existing, names)| ==> Merge(existing, names)[i] !in existing
    ensures NoDup(Merge(existing, names)[|existing|..])
  {
    MergeAddsAbsent(existing, names);
    MergeAddsOnce(existing, names);
  }

  lemma {:induction false} MergeAddsAbsent(existing: seq<string>, names: seq<string>)
    ensures forall i :: |existing| <= i < |Merge(existing, names)| ==> Merge(existing, names)[i] !in existing
    decreases |names|
  {
    if names != [] {
      var next := if names[0] in existing then existing else existing + [names[0]];
      var m := Merge(next, names[1..]);
      assert Merge(existing, names) == m;
      MergeAddsAbsent(next, names[1..]);
      if names[0] !in existing {
        assert m[..|next|] == next;
        forall i | |existing| <= i < |m| ensures m[i] !in existing {
          if i == |existing| {
            assert m[i] == next[i] == names[0];
          } else {
            assert m[i] !in next;
            assert forall x :: x in existing ==> x in next;
          }
        }
      }
    }
  }

  lemma {:induction false} MergeAddsOnce(existing: seq<string>, names: seq<string>)
    ensures NoDup(Merge(existing, names)[|existing|..])
    decreases |names|
  {
    if names == [] {
      assert Merge(existing, names)[|existing|..] == [];
    } else if names[0] in existing {
      MergeAddsOnce(existing, names[1..]);
    } else {
      var next := existing + [names[0]];
      var m := Merge(next, names[1..]);
      var rest := m[|next|..];
      assert Merge(existing, names) == m;
      assert NoDup(rest) by {
        MergeAddsOnce(next, names[1..]);
      }
      assert names[0] !in rest by {
        MergeAddsAbsent(next, names[1..]);
        assert names[0] in next;
        forall j | 0 <= j < |rest| ensures rest[j] != names[0] {
          assert rest[j] == m[|next| + j];
        }
      }
      SliceAfterPrefix(m, existing, names[0]);
      ConsNoDup(names[0], rest);
    }
  }

  lemma SliceAfterPrefix(m: seq<string>, e: seq<string>, x: string)
    requires IsPrefix(e + [x], m)
    ensures m[|e|..] == [x] + m[|e| + 1..]
  {
    assert m[|e|] == (e + [x])[|e|];
  }

  lemma ConsNoDup(x: string, s: seq<string>)
    requires NoDup(s) && x !in s
    ensures NoDup([x] + s)
  {
    var t := [x] + s;
    forall a, b | 0 <= a < b < |t| ensures t[a] != t[b] {
      assert t[b] == s[b - 1];
      if a > 0 {
        assert t[a] == s[a - 1];
      }
    }
  }

  /** Merging names that are all present already changes nothing. */
  lemma {:induction false} MergeKnown(existing: seq<string>, names: seq<string>)
    requires forall i :: 0 <= i < |names| ==> names[i] in existing
    ensures Merge(existing, names) == existing
    decreases |names|
  {
    if names != [] {
      MergeKnown(existing, names[1..]);
    }
  }

  /** Merging the same resources a second time adds nothing. */
  lemma MergeIdempotent(existing: seq<string>, names: seq<string>)
    ensures Merge(Merge(existing, names), names) == Merge(existing, names)
  {
    var m := Merge(existing, names);
    assert forall i :: 0 <= i < |names| ==> names[i] in Elems(m);
    MergeKnown(m, names);
  }

  /** For example, `["x","y"]` merged with `y`, `z` gives `["x","y","z"]`: the name already
      present is skipped and the new one appended. */
  lemma MergeExample()
    ensures Merge(["x", "y"], ["y", "z"]) == ["x", "y", "z"]
  {
    assert "y" in ["x", "y"];
    assert "z" !in ["x", "y"];
  }

  /** The inner loop of `addResources`: a linear search of the list built so far. */
  method Find(lines: seq<string>, name: string) returns (found: bool)
    ensures found <==> name in lines
  {
    found := false;
    var j := 0;
    while j < |lines| && !found
      invariant 0 <= j <= |lines|
      invariant found <==> name in lines[..j]
    {
      if lines[j] == name {
        found := true;
      }
      j := j + 1;
    }
    if !found {
      assert lines[..j] == lines;
    }
  }

  /** The outer loop of `addResources`: search, then append what was not found. */
  method MergeLoop(existing: seq<string>, names: seq<string>) returns (lines: seq<string>)
    ensures lines == Merge(existing, names)
  {
    lines := existing;
    for i := 0 to |names|
      invariant Merge(lines, names[i..]) == Merge(existing, names)
    {
      var found := Find(lines, names[i]);
      assert names[i..][0] == names[i] && names[i..][1..] == names[i + 1..];
      if !found {
        lines := lines + [names[i]];
      }
    }
    assert names[|names|..] == [];
  }

  /** What reading the registry file gave. */
  datatype FileRead = NoFile | Unreadable(message: string) | Contents(text: string)

  datatype RegistryError = ReadError(message: string)

  /** The names of a resource list, in order. */
  function Names(resources: seq<Resource>): (r: seq<string>)
    ensures |r| == |resources|
    ensures forall i :: 0 <= i < |r| ==> r[i] == resources[i].name
  {
    seq(|resources|, i requires 0 <= i < |resources| => resources[i].name)
  }

  /** The registry text before the update: a missing file counts as empty. */
  function TextOf(read: FileRead): string
    requires !read.Unreadable?
  {
    if read.Contents? then read.text else ""
  }

  /** `addResources`: the new file contents, or the read error that stops the update.
      The names already registered stay first and in order, and each new resource name
      not yet registered follows. */
  function AddResources(read: FileRead, resources: seq<Resource>): (r: Result<string, RegistryError>)
    ensures r.Failure? <==> read.Unreadable?
    ensures r.Success? && (forall i :: 0 <= i < |resources| ==> ValidName(resources[i].name)) ==>
      var before := Parse(TextOf(read));
      && IsPrefix(before, Parse(r.value))
      && Elems(Parse(r.value)) == Elems(before) + Elems(Names(resources))
  {
    if read.Unreadable? then Failure(ReadError(read.message))
    else
      var before := Parse(TextOf(read));
      MergeReadsBack(before, resources);
      Success(Write(Merge(before, Names(resources))))
  }

  /** The file written for a merge of valid names reads back as that merge. */
  lemma MergeReadsBack(existing: seq<string>, resources: seq<Resource>)
    requires forall i :: 0 <= i < |existing| ==> ValidName(existing[i])
    ensures (forall i :: 0 <= i < |resources| ==> ValidName(resources[i].name)) ==>
      Parse(Write(Merge(existing, Names(resources)))) == Merge(existing, Names(resources))
  {
    if forall i :: 0 <= i < |resources| ==> ValidName(resources[i].name) {
      MergedValid(existing, Names(resources));
      RoundTrip(Merge(existing, Names(resources)));
    }
  }

  lemma MergedValid(existing: seq<string>, names: seq<string>)
    requires forall i :: 0 <= i < |existing| ==> ValidName(existing[i])
    requires forall i :: 0 <= i < |names| ==> ValidName(names[i])
    ensures forall i :: 0 <= i < |Merge(existing, names)| ==> ValidName(Merge(existing, names)[i])
  {
    var m := Merge(existing, names);
    forall i | 0 <= i < |m| ensures ValidName(m[i]) {
      assert m[i] in Elems(m);
    }
  }

  /** Registering the same resources twice in a row leaves the file as the first run
      wrote it. */
  lemma AddResourcesIdempotent(read: FileRead, resources: seq<Resource>)
    requires !read.Unreadable?
    requires forall i :: 0 <= i < |resources| ==> ValidName(resources[i].name)
    ensures AddResources(read, resources).Success?
    ensures AddResources(Contents(AddResources(read, resources).value), resources)
         == AddResources(read, resources)
  {
    var before := Parse(TextOf(read));
    var after := Merge(before, Names(resources));
    MergedValid(before, Names(resources));
    RoundTrip(after);
    MergeIdempotent(before, Names(resources));
  }
}
