/** The string helpers of Go's `strings` and `path` packages that the tool relies on:
    whitespace trimming, splitting on a one-character separator, the final path element
    and lower-casing. Strings are sequences of Unicode scalar values. */
module Text {
  import opened Seqs

  /** Go's `unicode.IsSpace`: the Latin-1 space characters plus the Unicode White_Space
      characters outside Latin-1. */
  predicate IsSpace(c: char) {
    || c == ' ' || c == '\t' || c == '\n' || c == '\U{0B}' || c == '\U{0C}' || c == '\r'
    || c == '\U{85}' || c == '\U{A0}' || c == '\U{1680}'
    || ('\U{2000}' <= c <= '\U{200A}')
    || c == '\U{2028}' || c == '\U{2029}' || c == '\U{202F}' || c == '\U{205F}' || c == '\U{3000}'
  }

  /** `s` neither starts nor ends with white space. */
  predicate Trimmed(s: string) {
    s == [] || (!IsSpace(s[0]) && !IsSpace(s[|s| - 1]))
  }

  /** Drops leading white space. */
  function TrimLeft(s: string): (r: string)
    ensures IsSuffix(r, s)
    ensures forall i :: 0 <= i < |s| - |r| ==> IsSpace(s[i])
    ensures r == [] || !IsSpace(r[0])
  {
    if s != [] && IsSpace(s[0]) then TrimLeft(s[1..]) else s
  }

  /** Drops trailing white space. */
  function TrimRight(s: string): (r: string)
    ensures IsPrefix(r, s)
    ensures forall i :: |r| <= i < |s| ==> IsSpace(s[i])
    ensures r == [] || !IsSpace(r[|r| - 1])
  {
    if s != [] && IsSpace(s[|s| - 1]) then TrimRight(s[..|s| - 1]) else s
  }

  /** Every character of `u` is white space. */
  predicate AllSpace(u: string) {
    forall j :: 0 <= j < |u| ==> IsSpace(u[j])
  }

  /** `r` sits in `s` at index `i`, with nothing but white space before and after it. */
  predicate SpaceAround(s: string, i: int, r: string) {
    0 <= i && i + |r| <= |s| && s[i..i + |r|] == r && AllSpace(s[..i]) && AllSpace(s[i + |r|..])
  }

  /** `r` is what remains of `s` once some white space is dropped at either end. */
  predicate TrimsTo(s: string, r: string) {
    exists i :: 0 <= i <= |s| && SpaceAround(s, i, r)
  }

  /** Go's `strings.TrimSpace`: the slice of `s` left after dropping white space at both
      ends. */
  function TrimSpace(s: string): (r: string)
    ensures Trimmed(r)
    ensures TrimsTo(s, r)
  {
    TrimSpaceAround(s);
    TrimRight(TrimLeft(s))
  }

  /** Left and right trimming remove only white space, around one slice. */
  lemma TrimSpaceAround(s: string)
    ensures SpaceAround(s, |s| - |TrimLeft(s)|, TrimRight(TrimLeft(s)))
  {
    TrimLeftDropsSpace(s);
    TrimRightDropsSpace(TrimLeft(s));
    SpaceAroundOfPieces(s, TrimLeft(s), TrimRight(TrimLeft(s)));
  }

  /** Dropping white space from the front of `s` and then from the back of what is left
      leaves a slice with only white space around it. */
  lemma SpaceAroundOfPieces(s: string, l: string, r: string)
    requires |l| <= |s| && l == s[|s| - |l|..] && AllSpace(s[..|s| - |l|])
    requires |r| <= |l| && r == l[..|r|] && AllSpace(l[|r|..])
    ensures SpaceAround(s, |s| - |l|, r)
  {
    var i := |s| - |l|;
    assert s[i..i + |r|] == r;
    assert s[i + |r|..] == l[|r|..];
  }

  /** Left trimming keeps a suffix and drops only white space. */
  lemma TrimLeftDropsSpace(s: string)
    ensures TrimLeft(s) == s[|s| - |TrimLeft(s)|..]
    ensures AllSpace(s[..|s| - |TrimLeft(s)|])
  {
    var dropped := s[..|s| - |TrimLeft(s)|];
    forall j | 0 <= j < |dropped|
      ensures IsSpace(dropped[j])
    {
      assert dropped[j] == s[j];
    }
  }

  /** Right trimming keeps a prefix and drops only white space. */
  lemma TrimRightDropsSpace(s: string)
    ensures TrimRight(s) == s[..|TrimRight(s)|]
    ensures AllSpace(s[|TrimRight(s)|..])
  {
    var dropped := s[|TrimRight(s)|..];
    forall j | 0 <= j < |dropped|
      ensures IsSpace(dropped[j])
    {
      assert dropped[j] == s[|TrimRight(s)| + j];
    }
  }

  /** Only one trimmed slice of `s` has nothing but white space around it, so the two
      clauses of `TrimSpace`'s contract determine its result. */
  lemma TrimSpaceUnique(s: string, t: string)
    requires Trimmed(t) && TrimsTo(s, t)
    ensures t == TrimSpace(s)
  {
    var i :| 0 <= i <= |s| && SpaceAround(s, i, t);
    if t == [] {
      AllSpaceAround(s, i);
      TrimLeftAt(s, |s|);
      assert TrimSpace(s) == TrimRight([]);
    } else {
      var u := s[i..];
      SliceAround(s, i, t);
      TrimLeftAt(s, i);
      TrimRightAt(u, |t|);
      assert TrimSpace(s) == TrimRight(u) == u[..|t|];
    }
  }

  /** A trimmed text with one white-space character on each side trims back to itself:
      the line `start \ta\r`, say, splits into `start` and `\ta\r`, which trims to `a`. */
  lemma TrimSpacePadded(c: char, a: string, d: char)
    requires IsSpace(c) && IsSpace(d) && Trimmed(a)
    ensures TrimSpace([c] + a + [d]) == a
  {
    var s := [c] + a + [d];
    assert SpaceAround(s, 1, a) by {
      assert s[..1] == [c];
      assert s[1..1 + |a|] == a;
      assert s[1 + |a|..] == [d];
    }
    TrimSpaceUnique(s, a);
  }

  lemma TrimSpaceExample()
    ensures TrimSpace("\ta\r") == "a"
  {
    assert "\ta\r" == ['\t'] + "a" + ['\r'];
    TrimSpacePadded('\t', "a", '\r');
  }

  /** White space around an empty slice is all of `s`. */
  lemma AllSpaceAround(s: string, i: int)
    requires SpaceAround(s, i, [])
    ensures AllSpace(s[..|s|])
  {
    forall j | 0 <= j < |s|
      ensures IsSpace(s[..|s|][j])
    {
      if j < i {
        assert s[..i][j] == s[j];
      } else {
        assert s[i..][j - i] == s[j];
      }
    }
  }

  /** The ends of a slice with white space around it, seen from the slice's start. */
  lemma SliceAround(s: string, i: int, t: string)
    requires SpaceAround(s, i, t) && t != []
    ensures s[i] == t[0]
    ensures s[i..][|t| - 1] == t[|t| - 1]
    ensures s[i..][..|t|] == t
    ensures s[i..][|t|..] == s[i + |t|..]
  {
  }

  /** Left trimming cuts at the first character that is not white space. */
  lemma {:induction false} TrimLeftAt(s: string, i: nat)
    requires i <= |s| && (i == |s| || !IsSpace(s[i]))
    requires AllSpace(s[..i])
    ensures TrimLeft(s) == s[i..]
    decreases i
  {
    if i > 0 {
      assert IsSpace(s[0]) by {
        assert s[..i][0] == s[0];
      }
      assert AllSpace(s[1..][..i - 1]) by {
        var rest := s[1..][..i - 1];
        forall j | 0 <= j < |rest|
          ensures IsSpace(rest[j])
        {
          assert rest[j] == s[..i][j + 1];
        }
      }
      TrimLeftAt(s[1..], i - 1);
      assert s[1..][i - 1..] == s[i..];
    }
  }

  /** Right trimming cuts after the last character that is not white space. */
  lemma {:induction false} TrimRightAt(s: string, n: nat)
    requires n <= |s| && (n == 0 || !IsSpace(s[n - 1]))
    requires AllSpace(s[n..])
    ensures TrimRight(s) == s[..n]
    decreases |s| - n
  {
    if n < |s| {
      var p := s[..|s| - 1];
      assert IsSpace(s[|s| - 1]) by {
        assert s[n..][|s| - 1 - n] == s[|s| - 1];
      }
      assert AllSpace(p[n..]) by {
        assert forall j :: 0 <= j < |p| - n ==> p[n..][j] == s[n..][j];
      }
      TrimRightAt(p, n);
      assert p[..n] == s[..n];
    }
  }

  /** What `TrimSpace` keeps is one contiguous slice of its input. */
  lemma TrimSpaceIsSlice(s: string)
    ensures exists i :: 0 <= i <= |s| - |TrimSpace(s)| && TrimSpace(s) <= s[i..]
  {
    var l := TrimLeft(s);
    assert TrimSpace(s) <= s[|s| - |l|..];
  }

  /** Trimming a string that has no white space at its ends changes nothing. */
  lemma TrimSpaceOfTrimmed(s: string)
    requires Trimmed(s)
    ensures TrimSpace(s) == s
  {
  }

  /** Trailing white space is invisible to `TrimSpace`. */
  lemma {:induction false} TrimSpaceDropsTrailingSpace(s: string, c: char)
    requires IsSpace(c)
    ensures TrimSpace(s + [c]) == TrimSpace(s)
  {
    var l := TrimLeft(s);
    if l == [] {
      forall i | 0 <= i < |s + [c]| ensures IsSpace((s + [c])[i]) {
        if i < |s| {
          assert (s + [c])[i] == s[i];
        }
      }
      TrimLeftAllSpace(s + [c]);
      assert TrimSpace(s + [c]) == TrimRight([]);
    } else {
      TrimLeftAppend(s, [c]);
      assert TrimLeft(s + [c]) == l + [c];
      assert (l + [c])[..|l + [c]| - 1] == l;
      assert TrimRight(l + [c]) == TrimRight(l);
    }
  }

  /** A string made of white space only trims to nothing from the left. */
  lemma {:induction false} TrimLeftAllSpace(s: string)
    requires forall i :: 0 <= i < |s| ==> IsSpace(s[i])
    ensures TrimLeft(s) == []
    decreases |s|
  {
    if s != [] {
      TrimLeftAllSpace(s[1..]);
    }
  }

  /** Text appended after a non-blank prefix survives left trimming. */
  lemma {:induction false} TrimLeftAppend(s: string, t: string)
    requires TrimLeft(s) != []
    ensures TrimLeft(s + t) == TrimLeft(s) + t
    decreases |s|
  {
    assert (s + t)[0] == s[0];
    if IsSpace(s[0]) {
      assert (s + t)[1..] == s[1..] + t;
      TrimLeftAppend(s[1..], t);
      assert TrimLeft(s + t) == TrimLeft(s[1..] + t);
    } else {
      assert TrimLeft(s + t) == s + t;
    }
  }

  /** The position of the first `c` in `s`. */
  function IndexOf(s: string, c: char): (i: nat)
    requires c in s
    ensures i < |s| && s[i] == c && c !in s[..i]
  {
    if s[0] == c then 0 else 1 + IndexOf(s[1..], c)
  }

  /** Concatenates `parts` with `sep` between consecutive parts. */
  function Join(parts: seq<string>, sep: char): string {
    if parts == [] then ""
    else if |parts| == 1 then parts[0]
    else parts[0] + [sep] + Join(parts[1..], sep)
  }

  /** Go's `strings.Split(s, sep)` for a one-character separator: the pieces between
      separators. An empty `s` gives one empty piece. */
  function Split(s: string, sep: char): (r: seq<string>)
    ensures |r| >= 1
    ensures forall k :: 0 <= k < |r| ==> sep !in r[k]
    decreases |s|
  {
    if sep !in s then [s]
    else
      var i := IndexOf(s, sep);
      [s[..i]] + Split(s[i + 1..], sep)
  }

  /** Joining the pieces of a split with the separator gives back the text. */
  lemma {:induction false} SplitJoin(s: string, sep: char)
    ensures Join(Split(s, sep), sep) == s
    decreases |s|
  {
    if sep in s {
      var i := IndexOf(s, sep);
      var rest := Split(s[i + 1..], sep);
      calc {
        Join(Split(s, sep), sep);
      == { assert Split(s, sep) == [s[..i]] + rest; }
        Join([s[..i]] + rest, sep);
      == { assert ([s[..i]] + rest)[1..] == rest; }
        s[..i] + [sep] + Join(rest, sep);
      == { SplitJoin(s[i + 1..], sep); }
        s[..i] + [sep] + s[i + 1..];
      ==
        s;
      }
    }
  }

  /** Splitting text that starts with a separator-free piece yields that piece first. */
  lemma SplitFirstPiece(a: string, sep: char, rest: string)
    requires sep !in a
    ensures Split(a + [sep] + rest, sep) == [a] + Split(rest, sep)
  {
    var s := a + [sep] + rest;
    assert s[..|a|] == a;
    assert s[|a| + 1..] == rest;
    assert IndexOf(s, sep) == |a| by {
      IndexOfFirst(s, sep, |a|);
    }
  }

  /** `IndexOf` finds the first occurrence. */
  lemma {:induction false} IndexOfFirst(s: string, c: char, i: nat)
    requires i < |s| && s[i] == c && c !in s[..i]
    ensures IndexOf(s, c) == i
  {
    if i > 0 {
      assert s[0] in s[..i];
      assert s[1..][..i - 1] == s[..i][1..];
      IndexOfFirst(s[1..], c, i - 1);
    }
  }

  /** Go's `path.Split(p)` file part: everything after the final `/`. */
  function Base(p: string): (r: string)
    ensures '/' !in r
    ensures IsSuffix(r, p)
    ensures |r| < |p| ==> p[|p| - |r| - 1] == '/'
  {
    if p == [] || p[|p| - 1] == '/' then ""
    else Base(p[..|p| - 1]) + [p[|p| - 1]]
  }

  /** The final element of `dir + "/" + name` is `name` whenever `name` has no slash. */
  lemma {:induction false} BaseOfJoin(dir: string, name: string)
    requires '/' !in name
    ensures Base(dir + "/" + name) == name
    decreases |name|
  {
    var p := dir + "/" + name;
    if name == [] {
    } else {
      var last := |name| - 1;
      assert p[..|p| - 1] == dir + "/" + name[..last];
      assert name[last] in name;
      BaseOfJoin(dir, name[..last]);
      assert name == name[..last] + [name[last]];
    }
  }

  /** ASCII lower-casing of one character. */
  function LowerChar(c: char): char {
    if 'A' <= c <= 'Z' then (c as int + 32) as char else c
  }

  /** Lower-cases the ASCII letters of `s`, leaving every other character alone. */
  function Lower(s: string): (r: string)
    ensures |r| == |s|
    ensures forall i :: 0 <= i < |s| ==> r[i] == LowerChar(s[i])
    ensures IsLower(r)
    ensures forall i :: 0 <= i < |s| && !('A' <= s[i] <= 'Z') ==> r[i] == s[i]
    ensures forall i :: 0 <= i < |s| && 'A' <= s[i] <= 'Z' ==> 'a' <= r[i] <= 'z' && r[i] as int - s[i] as int == 32
  {
    seq(|s|, i requires 0 <= i < |s| => LowerChar(s[i]))
  }

  /** Lower-casing goes character by character. */
  lemma LowerSnoc(s: string, c: char)
    ensures Lower(s + [c]) == Lower(s) + [LowerChar(c)]
  {
    assert forall i :: 0 <= i < |s| ==> (s + [c])[i] == s[i];
  }

  /** Lower-casing commutes with taking the final path element. */
  lemma {:induction false} BaseLower(p: string)
    ensures Base(Lower(p)) == Lower(Base(p))
    decreases |p|
  {
    if p == [] {
    } else if p[|p| - 1] == '/' {
      assert Lower(p)[|p| - 1] == '/';
    } else {
      var q := p[..|p| - 1];
      var c := p[|p| - 1];
      assert p == q + [c];
      calc {
        Base(Lower(p));
      == { LowerSnoc(q, c); }
        Base(Lower(q) + [LowerChar(c)]);
      == { BaseSnoc(Lower(q), LowerChar(c)); }
        Base(Lower(q)) + [LowerChar(c)];
      == { BaseLower(q); }
        Lower(Base(q)) + [LowerChar(c)];
      == { LowerSnoc(Base(q), c); }
        Lower(Base(q) + [c]);
      == { BaseSnoc(q, c); }
        Lower(Base(p));
      }
    }
  }

  /** A character other than `/` appended to a path extends its final element. */
  lemma BaseSnoc(p: string, c: char)
    requires c != '/'
    ensures Base(p + [c]) == Base(p) + [c]
  {
    assert (p + [c])[..|p|] == p;
  }

  /** `s` has no upper-case ASCII letter. */
  predicate IsLower(s: string) {
    forall i :: 0 <= i < |s| ==> !('A' <= s[i] <= 'Z')
  }
}
