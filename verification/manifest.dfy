/** The resource manifest of manifest.go: an ordered multimap from metadata key to values,
    filled by the `AddMetaData` host function while the manifest script runs under a
    shim that turns every undefined global `k` into a recording callable.

    The Lua interpreter itself is not modelled. A manifest script is represented by the
    sequence of recording-relevant calls it makes (`Event`), and Lua values by the
    abstract `Value` below. */
module Manifests {
  import opened Wrappers

  /** A Lua value, as far as recording can tell values apart. A number carries the text
      Lua's string conversion gives it; a table carries its array part from index 1 on. */
  datatype Value = Nil | Bool(b: bool) | Num(text: string) | Str(s: string) | Table(items: seq<Value>) | Func

  /** `values` holds, per key, every recorded value in recording order. */
  datatype Manifest = Manifest(values: map<string, seq<string>>)

  /** The manifest a fresh `openManifest` call starts from. */
  const Empty := Manifest(map[])

  /** `GetAll`: every value recorded under `key`, in order; none for an unknown key
      (Go's nil slice of a missing map entry). */
  function GetAll(m: Manifest, key: string): seq<string> {
    if key in m.values then m.values[key] else []
  }

  /** `Get`: the first value recorded under `key`, or the empty string if there is none. */
  function Get(m: Manifest, key: string): (r: string)
    ensures GetAll(m, key) == [] ==> r == ""
    ensures GetAll(m, key) != [] ==> r == GetAll(m, key)[0]
  {
    if key !in m.values || |m.values[key]| == 0 then "" else m.values[key][0]
  }

  /** go-lua's `ToString`: strings and numbers convert, nothing else does. */
  function ToLuaString(v: Value): (r: Option<string>)
    ensures r.Some? <==> v.Str? || v.Num?
    ensures v.Str? ==> r == Some(v.s)
    ensures v.Num? ==> r == Some(v.text)
  {
    match v
    case Str(s) => Some(s)
    case Num(t) => Some(t)
    case _ => None
  }

  /** The `AddMetaData(key, value)` host function: appends `value` to the list of `key`
      when both arguments convert to strings, and otherwise does nothing. */
  function AddMetaData(m: Manifest, key: Value, value: Value): (r: Manifest)
    ensures ToLuaString(key).Some? && ToLuaString(value).Some? ==>
      GetAll(r, ToLuaString(key).value) == GetAll(m, ToLuaString(key).value) + [ToLuaString(value).value]
    ensures forall k :: k in r.values && (ToLuaString(value).None? || Some(k) != ToLuaString(key)) ==>
      k in m.values && GetAll(r, k) == GetAll(m, k)
    ensures forall k :: k in m.values ==> k in r.values
  {
    match (ToLuaString(key), ToLuaString(value))
    case (Some(k), Some(v)) => Manifest(m.values[k := GetAll(m, k) + [v]])
    case _ => m
  }

  /** The values that a sequence of `AddMetaData` calls appends under `key`, in order:
      those of the calls whose key converts to `key` and whose value converts at all. */
  function Accepted(calls: seq<(Value, Value)>, key: string): seq<string> {
    if calls == [] then []
    else
      var (k, v) := calls[0];
      (if ToLuaString(k) == Some(key) && ToLuaString(v).Some? then [ToLuaString(v).value] else [])
      + Accepted(calls[1..], key)
  }

  /** Performs the `AddMetaData` calls in order. */
  function RecordAll(m: Manifest, calls: seq<(Value, Value)>): Manifest
    decreases |calls|
  {
    if calls == [] then m else RecordAll(AddMetaData(m, calls[0].0, calls[0].1), calls[1..])
  }

  /** Performing calls appends, under every key, exactly the values `Accepted` selects. */
  lemma {:induction false} RecordAllAppends(m: Manifest, calls: seq<(Value, Value)>, key: string)
    ensures GetAll(RecordAll(m, calls), key) == GetAll(m, key) + Accepted(calls, key)
    decreases |calls|
  {
    if calls != [] {
      var m1 := AddMetaData(m, calls[0].0, calls[0].1);
      RecordAllAppends(m1, calls[1..], key);
    }
  }

  /** Accepted values of a concatenation of call sequences. */
  lemma {:induction false} AcceptedAppend(a: seq<(Value, Value)>, b: seq<(Value, Value)>, key: string)
    ensures Accepted(a + b, key) == Accepted(a, key) + Accepted(b, key)
    decreases |a|
  {
    if a == [] {
      assert a + b == b;
    } else {
      assert (a + b)[0] == a[0];
      assert (a + b)[1..] == a[1..] + b;
      AcceptedAppend(a[1..], b, key);
    }
  }

  /** One manifest statement, as seen by the recording machinery. */
  datatype Event =
      /** A direct `AddMetaData(key, value)` call. */
    | Direct(key: Value, value: Value)
      /** `name(arg)` on an undefined global `name`, i.e. `name "x"` or `name { ... }`. */
    | Shim(name: string, arg: Value)
      /** `name(arg)(extra)`: the legacy chained form, e.g. `name "x" "y"`. */
    | Chained(name: string, arg: Value, extra: Value)

  /** The key a table call records under: `name` with one trailing `s` removed. */
  function Singular(name: string): (r: string)
    ensures |name| > 0 && name[|name| - 1] == 's' ==> r + "s" == name
    ensures !(|name| > 0 && name[|name| - 1] == 's') ==> r == name
  {
    if |name| > 0 && name[|name| - 1] == 's' then name[..|name| - 1] else name
  }

  /** Lua's `ipairs`: the array elements from index 1 up to the first nil. */
  function Ipairs(items: seq<Value>): (r: seq<Value>)
    ensures r <= items
    ensures Nil !in r
    ensures |r| < |items| ==> items[|r|] == Nil
  {
    if items == [] || items[0] == Nil then [] else [items[0]] + Ipairs(items[1..])
  }

  /** The `AddMetaData` calls the shim's callable makes for `name(arg)`. */
  function ShimCalls(name: string, arg: Value): seq<(Value, Value)> {
    if arg.Table? then
      var elems := Ipairs(arg.items);
      seq(|elems|, i requires 0 <= i < |elems| => (Str(Singular(name)), elems[i]))
    else [(Str(name), arg)]
  }

  /** The `AddMetaData` calls one event makes. */
  function Calls(e: Event): seq<(Value, Value)> {
    match e
    case Direct(k, v) => [(k, v)]
    case Shim(name, arg) => ShimCalls(name, arg)
    case Chained(name, arg, extra) =>
      ShimCalls(name, arg) + (if extra.Str? then [(Str(name + "_extra"), extra)] else [])
  }

  /** Runs the events of a manifest script in order. */
  function Run(m: Manifest, events: seq<Event>): Manifest
    decreases |events|
  {
    if events == [] then m else Run(RecordAll(m, Calls(events[0])), events[1..])
  }

  /** Every `AddMetaData` call of a script, in execution order. */
  function AllCalls(events: seq<Event>): seq<(Value, Value)> {
    if events == [] then [] else Calls(events[0]) + AllCalls(events[1..])
  }

  /** Running a script appends, under every key, the values its calls record, in order. */
  lemma {:induction false} RunAppends(m: Manifest, events: seq<Event>, key: string)
    ensures GetAll(Run(m, events), key) == GetAll(m, key) + Accepted(AllCalls(events), key)
    decreases |events|
  {
    if events != [] {
      var m1 := RecordAll(m, Calls(events[0]));
      RecordAllAppends(m, Calls(events[0]), key);
      RunAppends(m1, events[1..], key);
      AcceptedAppend(Calls(events[0]), AllCalls(events[1..]), key);
    }
  }

  /** The values of a sequence that convert to strings, in order. */
  function Strings(vs: seq<Value>): seq<string> {
    if vs == [] then []
    else (if ToLuaString(vs[0]).Some? then [ToLuaString(vs[0]).value] else []) + Strings(vs[1..])
  }

  /** A scalar call `k v` on an undefined global records exactly `(k, v)` when `v`
      converts to a string, nothing when it does not, and leaves every other key alone. */
  lemma ScalarCallRecordsOne(m: Manifest, k: string, v: Value)
    requires !v.Table?
    ensures ToLuaString(v).Some? ==> GetAll(RecordAll(m, Calls(Shim(k, v))), k) == GetAll(m, k) + [ToLuaString(v).value]
    ensures ToLuaString(v).None? ==> RecordAll(m, Calls(Shim(k, v))) == m
    ensures forall k' :: k' != k ==> GetAll(RecordAll(m, Calls(Shim(k, v))), k') == GetAll(m, k')
  {
    forall k' ensures GetAll(RecordAll(m, Calls(Shim(k, v))), k') == GetAll(m, k') + Accepted(Calls(Shim(k, v)), k') {
      RecordAllAppends(m, Calls(Shim(k, v)), k');
    }
  }

  /** Under `Singular(name)`, a table call's values are its elements' strings. */
  lemma {:induction false} TableCallsAccepted(name: string, elems: seq<Value>, key: string)
    ensures Accepted(seq(|elems|, i requires 0 <= i < |elems| => (Str(name), elems[i])), key)
         == (if key == name then Strings(elems) else [])
    decreases |elems|
  {
    var calls := seq(|elems|, i requires 0 <= i < |elems| => (Str(name), elems[i]));
    if elems != [] {
      assert calls[1..] == seq(|elems[1..]|, i requires 0 <= i < |elems[1..]| => (Str(name), elems[1..][i]));
      TableCallsAccepted(name, elems[1..], key);
    }
  }

  /** A table call `k { ... }` records every element that converts to a string, in
      `ipairs` order, under `k` with one trailing `s` removed; no other key changes. */
  lemma TableCallRecordsEach(m: Manifest, k: string, items: seq<Value>)
    ensures GetAll(RecordAll(m, Calls(Shim(k, Table(items)))), Singular(k))
         == GetAll(m, Singular(k)) + Strings(Ipairs(items))
    ensures forall k' :: k' != Singular(k) ==> GetAll(RecordAll(m, Calls(Shim(k, Table(items)))), k') == GetAll(m, k')
  {
    forall k' ensures GetAll(RecordAll(m, Calls(Shim(k, Table(items)))), k')
                   == GetAll(m, k') + (if k' == Singular(k) then Strings(Ipairs(items)) else []) {
      RecordAllAppends(m, Calls(Shim(k, Table(items))), k');
      TableCallsAccepted(Singular(k), Ipairs(items), k');
    }
  }

  /** The chained call `k v extra` adds `extra` under `k .. "_extra"` (the unstripped name)
      when `extra` is a Lua string, after what `k v` records; any other `extra`, a number
      included, adds nothing. */
  lemma ChainedCallRecordsExtra(m: Manifest, k: string, v: Value, extra: Value)
    ensures extra.Str? ==>
      GetAll(RecordAll(m, Calls(Chained(k, v, extra))), k + "_extra")
        == GetAll(RecordAll(m, Calls(Shim(k, v))), k + "_extra") + [extra.s]
    ensures extra.Str? ==> forall k' :: k' != k + "_extra" ==>
      GetAll(RecordAll(m, Calls(Chained(k, v, extra))), k') == GetAll(RecordAll(m, Calls(Shim(k, v))), k')
    ensures !extra.Str? ==> RecordAll(m, Calls(Chained(k, v, extra))) == RecordAll(m, Calls(Shim(k, v)))
  {
    var key := k + "_extra";
    var shim := Calls(Shim(k, v));
    if extra.Str? {
      assert Calls(Chained(k, v, extra)) == shim + [(Str(key), extra)];
      OneMoreCall(m, shim, key, extra.s);
    } else {
      assert Calls(Chained(k, v, extra)) == shim + [] == shim;
    }
  }

  /** One more call `AddMetaData(key, value)` with string arguments appends `value`
      under `key` and leaves every other key as it was. */
  lemma OneMoreCall(m: Manifest, calls: seq<(Value, Value)>, key: string, value: string)
    ensures GetAll(RecordAll(m, calls + [(Str(key), Str(value))]), key) == GetAll(RecordAll(m, calls), key) + [value]
    ensures forall k' :: k' != key ==>
      GetAll(RecordAll(m, calls + [(Str(key), Str(value))]), k') == GetAll(RecordAll(m, calls), k')
  {
    var tail := [(Str(key), Str(value))];
    forall k' ensures GetAll(RecordAll(m, calls + tail), k')
                   == GetAll(RecordAll(m, calls), k') + (if k' == key then [value] else [])
    {
      assert Accepted(tail, k') == (if k' == key then [value] else []) by {
        assert tail[1..] == [];
      }
      RecordAllAppends(m, calls + tail, k');
      RecordAllAppends(m, calls, k');
      AcceptedAppend(calls, tail, k');
    }
  }

  /** How the manifest file `__resource.lua` of a directory presents itself to the loader. */
  datatype ScriptSource =
    | Missing
    | Unparsable(message: string)
      /** A script that parses; `events` are the calls it makes before it ends, and
          `fault` the runtime error it stops with, if any. */
    | Script(events: seq<Event>, fault: Option<string>)

  datatype ManifestError = NotFound | ParseError(message: string) | RuntimeError(message: string)

  /** `openManifest`: runs the script against a fresh manifest. A missing or unparsable
      file, or a script that faults, yields an error and no manifest. */
  function OpenManifest(src: ScriptSource): (r: Result<Manifest, ManifestError>)
    ensures r.Success? <==> src.Script? && src.fault.None?
    ensures src.Missing? ==> r == Failure(NotFound)
    ensures r.Success? ==> forall key :: GetAll(r.value, key) == Accepted(AllCalls(src.events), key)
  {
    match src
    case Missing => Failure(NotFound)
    case Unparsable(msg) => Failure(ParseError(msg))
    case Script(events, fault) =>
      if fault.Some? then Failure(RuntimeError(fault.value))
      else
        var m := Run(Empty, events);
        assert forall key :: GetAll(m, key) == Accepted(AllCalls(events), key) by {
          forall key ensures GetAll(m, key) == Accepted(AllCalls(events), key) {
            RunAppends(Empty, events, key);
          }
        }
        Success(m)
  }
}
