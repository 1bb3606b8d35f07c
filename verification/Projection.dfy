/** Source filtering: which part of a document a search response shows. */
module Projection {
  import opened Prelude
  import opened Json
  import Glob

  type Path = seq<string>

  function PathOf(field: string): (path: Path)
    ensures path != []
  {
    Glob.Split(field, '.')
  }

  // ----- Building and pruning a tree -----

  /** Puts a value at a path, making the objects on the way; stops where the way is blocked. */
  function InsertPath(output: Value, path: Path, value: Value): Value
    requires path != []
    decreases |path|
  {
    if !output.Object? then output
    else if |path| == 1 then Object(output.fields[path[0] := value])
    else
      var child := if path[0] in output.fields then output.fields[path[0]] else EMPTY_OBJECT;
      Object(output.fields[path[0] := InsertPath(child, path[1..], value)])
  }

  function RemovePlain(output: Value, path: Path): Value
    requires path != []
    decreases |path|
  {
    if !output.Object? then output
    else if |path| == 1 then Object(output.fields - {path[0]})
    else if path[0] !in output.fields then output
    else Object(output.fields[path[0] := RemovePlain(output.fields[path[0]], path[1..])])
  }

  function RemoveWildcard(output: Value, path: Path): Value
    requires path != []
    decreases |path|
  {
    if !output.Object? then output
    else if |path| == 1 then
      if path[0] == "*" then EMPTY_OBJECT else Object(output.fields - {path[0]})
    else if path[0] == "*" then
      Object(map k | k in output.fields :: RemoveWildcard(output.fields[k], path[1..]))
    else if path[0] !in output.fields then output
    else Object(output.fields[path[0] := RemoveWildcard(output.fields[path[0]], path[1..])])
  }

  function RemovePath(output: Value, path: Path): Value
    requires path != []
  {
    if "*" in path then RemoveWildcard(output, path) else RemovePlain(output, path)
  }

  /** The fields put one after another; those the source does not have are skipped. */
  function Included(source: Value, fields: seq<string>): Value {
    if fields == [] then EMPTY_OBJECT
    else
      var before := Included(source, fields[..|fields| - 1]);
      var path := PathOf(fields[|fields| - 1]);
      match ValueAt(source, path)
      case None => before
      case Some(v) => InsertPath(before, path, v)
  }

  /** Puts the requested fields together, one after another. */
  method IncludeFields(source: Value, fields: seq<string>) returns (output: Value)
    ensures output == Included(source, fields)
  {
    output := EMPTY_OBJECT;
    var i := 0;
    while i < |fields|
      invariant 0 <= i <= |fields| && output == Included(source, fields[..i])
    {
      assert fields[..i + 1][..i] == fields[..i];
      var path := PathOf(fields[i]);
      match ValueAt(source, path) {
        case None =>
        case Some(v) => output := InsertPath(output, path, v);
      }
      i := i + 1;
    }
    assert fields[..|fields|] == fields;
  }

  function Excluded(output: Value, excludes: seq<string>): Value {
    if excludes == [] then output
    else RemovePath(Excluded(output, excludes[..|excludes| - 1]), PathOf(excludes[|excludes| - 1]))
  }

  /** Removes the excluded fields, one after another. */
  method ExcludeFields(output: Value, excludes: seq<string>) returns (pruned: Value)
    ensures pruned == Excluded(output, excludes)
  {
    pruned := output;
    var i := 0;
    while i < |excludes|
      invariant 0 <= i <= |excludes| && pruned == Excluded(output, excludes[..i])
    {
      assert excludes[..i + 1][..i] == excludes[..i];
      pruned := RemovePath(pruned, PathOf(excludes[i]));
      i := i + 1;
    }
    assert excludes[..|excludes|] == excludes;
  }

  // ----- Filters -----

  function Strings(values: seq<Value>): seq<string> {
    if values == [] then []
    else (if values[0].Str? then [values[0].s] else []) + Strings(values[1..])
  }

  function FieldList(v: Option<Value>): seq<string> {
    match v
    case Some(Str(field)) => [field]
    case Some(Array(values)) => Strings(values)
    case _ => []
  }

  function EitherKey(v: Value, first: string, second: string): Option<Value> {
    if Get(v, first).Some? then Get(v, first) else Get(v, second)
  }

  function Includes(filter: Value): seq<string> {
    FieldList(EitherKey(filter, "includes", "include"))
  }

  function Excludes(filter: Value): seq<string> {
    FieldList(EitherKey(filter, "excludes", "exclude"))
  }

  /** Each form a source filter can take. */
  method FilterSource(source: Value, filter: Option<Value>) returns (shown: Value)
    ensures shown == Filtered(source, filter)
  {
    match filter {
      case Some(Bool(false)) => shown := Null;
      case Some(Str(field)) => shown := IncludeFields(source, [field]);
      case Some(Array(values)) => shown := IncludeFields(source, Strings(values));
      case Some(Object(_)) =>
        var includes := Includes(filter.value);
        shown := source;
        if includes != [] {
          shown := IncludeFields(source, includes);
        }
        shown := ExcludeFields(shown, Excludes(filter.value));
      case _ => shown := source;
    }
  }

  function Filtered(source: Value, filter: Option<Value>): Value {
    match filter
    case Some(Bool(b)) => if b then source else Null
    case Some(Str(field)) => Included(source, [field])
    case Some(Array(values)) => Included(source, Strings(values))
    case Some(Object(_)) =>
      var includes := Includes(filter.value);
      Excluded(if includes == [] then source else Included(source, includes), Excludes(filter.value))
    case _ => source
  }

  // ----- Paths through a tree -----

  lemma {:induction false} ValueAtSplits(v: Value, p: Path, q: Path)
    ensures ValueAt(v, p + q) == if ValueAt(v, p).None? then None else ValueAt(ValueAt(v, p).value, q)
  {
    if p == [] {
      assert p + q == q;
    } else {
      assert (p + q)[0] == p[0] && (p + q)[1..] == p[1..] + q;
      if Get(v, p[0]).Some? {
        ValueAtSplits(Get(v, p[0]).value, p[1..], q);
      }
    }
  }

  /** Nothing but objects stands on the way. */
  predicate Walkable(output: Value, path: Path)
    requires path != []
    decreases |path|
  {
    output.Object? && (|path| == 1 || path[0] !in output.fields || Walkable(output.fields[path[0]], path[1..]))
  }

  predicate IsObjectAt(v: Value, q: Path) {
    ValueAt(v, q).Some? && ValueAt(v, q).value.Object?
  }

  function ChildOf(output: Value, key: string): Value {
    if Get(output, key).Some? then Get(output, key).value else EMPTY_OBJECT
  }

  lemma InsertStep(output: Value, path: Path, value: Value, key: string)
    requires path != [] && Walkable(output, path)
    ensures Get(InsertPath(output, path, value), key) ==
      if key != path[0] then Get(output, key)
      else if |path| == 1 then Some(value)
      else Some(InsertPath(ChildOf(output, key), path[1..], value))
    ensures |path| > 1 ==> Walkable(ChildOf(output, path[0]), path[1..])
    ensures output.Object?
  {
  }

  lemma Unequal(path: Path, q: Path)
    requires path != []
    ensures q != [] && q[0] == path[0] ==> (path <= q <==> path[1..] <= q[1..]) && (q < path <==> q[1..] < path[1..])
    ensures q != [] && q[0] != path[0] ==> !(path <= q) && !(q < path)
    ensures path <= q ==> q[|path|..] == q[1..][|path| - 1..]
    ensures q < path && q != [] ==> path[|q|..] == path[1..][|q| - 1..]
  {
    if q != [] && q[0] == path[0] {
      assert path == [path[0]] + path[1..] && q == [q[0]] + q[1..];
    }
  }

  function OrEmpty(v: Option<Value>): Value {
    if v.Some? then v.value else EMPTY_OBJECT
  }

  /** At and under the path the value's own tree, on the way the old object, or a new
      one, with the rest inserted, everywhere else what was there. */
  function AfterInsert(output: Value, path: Path, value: Value, q: Path): Option<Value>
    requires path != []
  {
    if path <= q then ValueAt(value, q[|path|..])
    else if q < path then Some(InsertPath(OrEmpty(ValueAt(output, q)), path[|q|..], value))
    else ValueAt(output, q)
  }

  lemma AfterInsertStep(output: Value, path: Path, value: Value, q: Path)
    requires |path| > 1 && q != [] && q[0] == path[0] && output.Object?
    ensures AfterInsert(output, path, value, q) == AfterInsert(ChildOf(output, path[0]), path[1..], value, q[1..])
  {
    hide InsertPath;
    Unequal(path, q);
    if Get(output, path[0]).None? && q[1..] != [] {
      assert Get(EMPTY_OBJECT, q[1..][0]).None?;
    }
  }

  lemma AfterInsertElsewhere(output: Value, path: Path, value: Value, q: Path)
    requires path != [] && Walkable(output, path) && (q == [] || q[0] != path[0] || |path| == 1)
    ensures ValueAt(InsertPath(output, path, value), q) == AfterInsert(output, path, value, q)
  {
    if q == [] {
      assert path[0..] == path;
    } else {
      Unequal(path, q);
      InsertStep(output, path, value, q[0]);
    }
  }

  lemma {:induction false} InsertedAt(output: Value, path: Path, value: Value, q: Path)
    requires path != [] && Walkable(output, path)
    ensures ValueAt(InsertPath(output, path, value), q) == AfterInsert(output, path, value, q)
    decreases |path|
  {
    hide InsertPath, Walkable, AfterInsert;
    if |path| > 1 && q != [] && q[0] == path[0] {
      InsertStep(output, path, value, q[0]);
      InsertedAt(ChildOf(output, path[0]), path[1..], value, q[1..]);
      AfterInsertStep(output, path, value, q);
    } else {
      AfterInsertElsewhere(output, path, value, q);
    }
  }

  lemma {:induction false} WayIsWalkable(output: Value, path: Path, q: Path)
    requires path != [] && Walkable(output, path) && q < path
    ensures OrEmpty(ValueAt(output, q)).Object?
    decreases |q|
  {
    if q != [] && q[0] in output.fields {
      WayIsWalkable(output.fields[q[0]], path[1..], q[1..]);
    }
  }

  lemma {:induction false} InsertingWhatIsThere(v: Value, path: Path)
    requires path != [] && ValueAt(v, path).Some?
    ensures InsertPath(v, path, ValueAt(v, path).value) == v
    decreases |path|
  {
    var child := v.fields[path[0]];
    if |path| > 1 {
      InsertingWhatIsThere(child, path[1..]);
    }
    assert v.fields[path[0] := child] == v.fields;
  }

  lemma {:induction false} WalkableWhen(v: Value, path: Path)
    requires path != [] && forall r :: r < path ==> ValueAt(v, r).None? || IsObjectAt(v, r)
    ensures Walkable(v, path)
    decreases |path|
  {
    var root: Path := [];
    assert root < path && IsObjectAt(v, root);
    if |path| > 1 && path[0] in v.fields {
      forall r | r < path[1..] ensures ValueAt(v.fields[path[0]], r).None? || IsObjectAt(v.fields[path[0]], r) {
        var longer := [path[0]] + r;
        assert longer < path && longer[1..] == r;
        assert ValueAt(v, longer) == ValueAt(v.fields[path[0]], r);
      }
      WalkableWhen(v.fields[path[0]], path[1..]);
    }
  }

  lemma WayIsObjects(v: Value, path: Path, r: Path)
    requires r < path && ValueAt(v, path).Some?
    ensures IsObjectAt(v, r)
  {
    assert path == r + path[|r|..];
    ValueAtSplits(v, r, path[|r|..]);
  }

  // ----- What an inclusion shows -----

  ghost predicate Present(source: Value, fields: seq<string>, f: string) {
    f in fields && ValueAt(source, PathOf(f)).Some?
  }

  /** A requested field that the source has ends at this path or above it. */
  ghost predicate Requested(source: Value, fields: seq<string>, q: Path) {
    exists f :: Present(source, fields, f) && PathOf(f) <= q
  }

  /** A requested field that the source has lies below this path. */
  ghost predicate OnTheWay(source: Value, fields: seq<string>, q: Path) {
    exists f :: Present(source, fields, f) && q < PathOf(f)
  }

  ghost predicate ShowsExactly(output: Value, source: Value, fields: seq<string>, q: Path) {
    if Requested(source, fields, q) then ValueAt(output, q) == ValueAt(source, q)
    else if q == [] || OnTheWay(source, fields, q) then IsObjectAt(output, q)
    else ValueAt(output, q).None?
  }

  lemma FieldsGrow(source: Value, fields: seq<string>, q: Path)
    requires fields != []
    ensures var before := fields[..|fields| - 1];
            var last := fields[|fields| - 1];
            var there := ValueAt(source, PathOf(last)).Some?;
            (Requested(source, fields, q) <==> Requested(source, before, q) || (there && PathOf(last) <= q))
            && (OnTheWay(source, fields, q) <==> OnTheWay(source, before, q) || (there && q < PathOf(last)))
  {
    var before := fields[..|fields| - 1];
    var last := fields[|fields| - 1];
    forall f ensures Present(source, fields, f)
      <==> Present(source, before, f) || (f == last && ValueAt(source, PathOf(last)).Some?) {}
    if Requested(source, fields, q) {
      var f :| Present(source, fields, f) && PathOf(f) <= q;
      assert f == last || Present(source, before, f);
    }
    if Requested(source, before, q) {
      var f :| Present(source, before, f) && PathOf(f) <= q;
      assert Present(source, fields, f);
    }
    if OnTheWay(source, fields, q) {
      var f :| Present(source, fields, f) && q < PathOf(f);
      assert f == last || Present(source, before, f);
    }
    if OnTheWay(source, before, q) {
      var f :| Present(source, before, f) && q < PathOf(f);
      assert Present(source, fields, f);
    }
    assert ValueAt(source, PathOf(last)).Some? ==> Present(source, fields, last);
  }

  /** At every path the output is the source where a requested field covers it, an
      object on the way to one, and nothing anywhere else; order and overlap do not matter. */
  lemma {:induction false} IncludedShowsExactly(source: Value, fields: seq<string>, q: Path)
    ensures ShowsExactly(Included(source, fields), source, fields, q)
    decreases |fields|
  {
    hide Requested, OnTheWay, ValueAt, InsertPath, Glob.Split;
    if fields == [] {
      NothingIncluded(source, q);
    } else {
      var before := Included(source, fields[..|fields| - 1]);
      var path := PathOf(fields[|fields| - 1]);
      FieldsGrow(source, fields, q);
      IncludedShowsExactly(source, fields[..|fields| - 1], q);
      if ValueAt(source, path).Some? {
        forall r | r < path ensures ValueAt(before, r).None? || IsObjectAt(before, r) {
          IncludedShowsExactly(source, fields[..|fields| - 1], r);
          WayIsObjects(source, path, r);
        }
        WalkableWhen(before, path);
        OneMoreField(before, source, path, q);
      }
    }
  }

  lemma NothingIncluded(source: Value, q: Path)
    ensures ShowsExactly(EMPTY_OBJECT, source, [], q)
  {
    assert q != [] ==> Get(EMPTY_OBJECT, q[0]).None?;
  }

  /** One insertion of the source's own value. */
  lemma OneMoreField(before: Value, source: Value, path: Path, q: Path)
    requires path != [] && ValueAt(source, path).Some? && Walkable(before, path)
    ensures var after := InsertPath(before, path, ValueAt(source, path).value);
            (path <= q ==> ValueAt(after, q) == ValueAt(source, q))
            && (q < path ==> IsObjectAt(after, q))
            && (q < path && ValueAt(before, q) == ValueAt(source, q) ==> ValueAt(after, q) == ValueAt(source, q))
            && (!(path <= q) && !(q < path) ==> ValueAt(after, q) == ValueAt(before, q))
  {
    hide ValueAt, Walkable;
    InsertedAt(before, path, ValueAt(source, path).value, q);
    if q < path {
      WayIsWalkable(before, path, q);
    }
    if path <= q {
      assert q == path + q[|path|..];
      ValueAtSplits(source, path, q[|path|..]);
    } else if q < path && ValueAt(before, q) == ValueAt(source, q) {
      WayIsObjects(source, path, q);
      assert path == q + path[|q|..];
      ValueAtSplits(source, q, path[|q|..]);
      InsertingWhatIsThere(ValueAt(source, q).value, path[|q|..]);
    }
  }

  // ----- What an exclusion hides -----

  predicate Fits(pattern: Path, q: Path, n: nat)
    requires n <= |pattern| && n <= |q|
  {
    forall i :: 0 <= i < n ==> pattern[i] == "*" || pattern[i] == q[i]
  }

  /** The pattern names this path or one above it; a star stands for any key. */
  predicate Hits(pattern: Path, q: Path) {
    |pattern| <= |q| && Fits(pattern, q, |pattern|)
  }

  /** The pattern may name something below this path. */
  predicate Leads(pattern: Path, q: Path) {
    |q| < |pattern| && Fits(pattern, q, |q|)
  }

  /** Without a star both ways of removing do the same. */
  lemma {:induction false} PlainAgrees(v: Value, path: Path)
    requires path != [] && "*" !in path
    ensures RemovePlain(v, path) == RemoveWildcard(v, path)
    decreases |path|
  {
    if v.Object? && |path| > 1 && path[0] in v.fields {
      PlainAgrees(v.fields[path[0]], path[1..]);
    }
  }

  lemma FitsStep(pattern: Path, q: Path)
    requires pattern != [] && q != []
    ensures Hits(pattern, q) <==> (pattern[0] == "*" || pattern[0] == q[0]) && Hits(pattern[1..], q[1..])
    ensures Leads(pattern, q) <==> (pattern[0] == "*" || pattern[0] == q[0]) && Leads(pattern[1..], q[1..])
    ensures Leads(pattern, q) ==> pattern[|q|..] == pattern[1..][|q| - 1..]
  {
    var n := if |pattern| <= |q| then |pattern| else |q|;
    assert Fits(pattern, q, n) <==> (pattern[0] == "*" || pattern[0] == q[0]) && Fits(pattern[1..], q[1..], n - 1) by {
      if (pattern[0] == "*" || pattern[0] == q[0]) && Fits(pattern[1..], q[1..], n - 1) {
        forall i | 0 <= i < n ensures pattern[i] == "*" || pattern[i] == q[i] {
          if i > 0 { assert pattern[1..][i - 1] == pattern[i] && q[1..][i - 1] == q[i]; }
        }
      }
    }
  }

  lemma FitsNothing(pattern: Path, q: Path)
    requires pattern != []
    ensures |pattern| == 1 && q != [] ==> Hits(pattern[1..], q[1..])
    ensures q == [] ==> Leads(pattern, q)
  {
  }

  /** What one exclusion leaves at a path. */
  function Left(v: Value, pattern: Path, q: Path): Option<Value>
    requires pattern != []
  {
    if Hits(pattern, q) then None
    else if Leads(pattern, q) && ValueAt(v, q).Some? then Some(RemoveWildcard(ValueAt(v, q).value, pattern[|q|..]))
    else ValueAt(v, q)
  }

  lemma {:induction false} RemovedAt(v: Value, pattern: Path, q: Path)
    requires pattern != []
    ensures ValueAt(RemoveWildcard(v, pattern), q) == Left(v, pattern, q)
    decreases |pattern|
  {
    hide Fits;
    FitsNothing(pattern, q);
    if q == [] {
      assert pattern[0..] == pattern;
    } else {
      FitsStep(pattern, q);
      if v.Object? && |pattern| > 1 && q[0] in v.fields {
        RemovedAt(v.fields[q[0]], pattern[1..], q[1..]);
      }
    }
  }

  ghost predicate Hidden(excludes: seq<string>, q: Path) {
    exists e :: e in excludes && Hits(PathOf(e), q)
  }

  /** No exclusion reaches this path, from above or below. */
  ghost predicate Unrelated(excludes: seq<string>, q: Path) {
    forall e :: e in excludes ==> !Hits(PathOf(e), q) && !Leads(PathOf(e), q)
  }

  ghost predicate LeavesExactly(output: Value, before: Value, excludes: seq<string>, q: Path) {
    (ValueAt(output, q).Some? <==> ValueAt(before, q).Some? && !Hidden(excludes, q))
    && (ValueAt(output, q).Some? ==> SameOrBothObjects(ValueAt(output, q).value, ValueAt(before, q).value))
    && (Unrelated(excludes, q) ==> ValueAt(output, q) == ValueAt(before, q))
  }

  ghost predicate SameOrBothObjects(a: Value, b: Value) {
    a == b || (a.Object? && b.Object?)
  }

  /** Exactly the paths some exclusion names are gone; a value that is no object is
      never altered, and neither is anything no exclusion reaches. */
  lemma {:induction false} ExcludedLeavesExactly(before: Value, excludes: seq<string>, q: Path)
    ensures LeavesExactly(Excluded(before, excludes), before, excludes, q)
    decreases |excludes|
  {
    hide ValueAt, Glob.Split, Hits, Leads;
    if excludes != [] {
      var earlier, last := excludes[..|excludes| - 1], excludes[|excludes| - 1];
      ExcludedLeavesExactly(before, earlier, q);
      var output := Excluded(before, earlier);
      if "*" !in PathOf(last) {
        PlainAgrees(output, PathOf(last));
      }
      RemovedAt(output, PathOf(last), q);
      assert excludes == earlier + [last];
      if Hidden(earlier, q) {
        var e :| e in earlier && Hits(PathOf(e), q);
        assert e in excludes;
      }
      assert Hidden(excludes, q) <==> Hidden(earlier, q) || Hits(PathOf(last), q);
      assert Unrelated(excludes, q) ==> Unrelated(earlier, q);
    }
  }

  // ----- The whole filter -----

  ghost predicate Selected(source: Value, includes: seq<string>, q: Path) {
    includes == [] || Requested(source, includes, q) || OnTheWay(source, includes, q)
  }

  /** Below its root, the filtered source has exactly the paths the source has that are
      selected and not hidden, and every value it shows there is the source's own or an object for one. */
  lemma FilterShowsExactly(source: Value, filter: Value, q: Path)
    requires filter.Object? && q != []
    ensures var shown := Filtered(source, Some(filter));
            ValueAt(shown, q).Some? <==>
              ValueAt(source, q).Some? && Selected(source, Includes(filter), q) && !Hidden(Excludes(filter), q)
    ensures var shown := Filtered(source, Some(filter));
            ValueAt(shown, q).Some? ==>
              ValueAt(source, q).Some? && SameOrBothObjects(ValueAt(shown, q).value, ValueAt(source, q).value)
  {
    hide ValueAt, Included, Excluded, Requested, OnTheWay, Hidden, Includes, Excludes;
    var includes, excludes := Includes(filter), Excludes(filter);
    var middle := if includes == [] then source else Included(source, includes);
    ExcludedLeavesExactly(middle, excludes, q);
    if includes != [] {
      IncludedShowsExactly(source, includes, q);
      if OnTheWay(source, includes, q) {
        OnTheWayIsObject(source, includes, q);
      }
    }
  }

  lemma OnTheWayIsObject(source: Value, fields: seq<string>, q: Path)
    requires OnTheWay(source, fields, q)
    ensures IsObjectAt(source, q)
  {
    var f :| Present(source, fields, f) && q < PathOf(f);
    WayIsObjects(source, PathOf(f), q);
  }

  // ----- The forms of a filter -----

  /** A list of fields is a name, or the names in an array. */
  ghost predicate Lists(v: Option<Value>, field: string) {
    v == Some(Str(field)) || (v.Some? && v.value.Array? && Str(field) in v.value.items)
  }

  /** What stands under a key of an object, or else under its short form. */
  ghost function Under(fields: map<string, Value>, key: string, short: string): Option<Value> {
    if key in fields then Some(fields[key]) else if short in fields then Some(fields[short]) else None
  }

  /** The fields a filter asks to show, and those it asks to hide. */
  ghost predicate AsksToShow(filter: Value, field: string) {
    if filter.Object? then Lists(Under(filter.fields, "includes", "include"), field) else Lists(Some(filter), field)
  }

  ghost predicate AsksToHide(filter: Value, field: string) {
    filter.Object? && Lists(Under(filter.fields, "excludes", "exclude"), field)
  }

  lemma {:induction false} StringsAreListed(values: seq<Value>)
    ensures forall f :: f in Strings(values) <==> Str(f) in values
  {
    if values != [] {
      StringsAreListed(values[1..]);
    }
  }

  lemma FieldListIs(v: Option<Value>)
    ensures forall f :: f in FieldList(v) <==> Lists(v, f)
  {
    if v.Some? && v.value.Array? {
      StringsAreListed(v.value.items);
    }
  }

  /** Some field that the filter asks to show ends at the path, above it or below it. */
  ghost predicate ShownBy(source: Value, filter: Value, q: Path) {
    exists f :: AsksToShow(filter, f) && ValueAt(source, PathOf(f)).Some? && (PathOf(f) <= q || q < PathOf(f))
  }

  ghost predicate HiddenBy(filter: Value, q: Path) {
    exists f :: AsksToHide(filter, f) && Hits(PathOf(f), q)
  }

  /** No filter, `true`, and what is no filter show all; `false` shows nothing; an object
      without fields to show shows all but what it hides. */
  ghost predicate ShowsPath(source: Value, filter: Option<Value>, q: Path) {
    match filter
    case None => true
    case Some(Bool(b)) => b
    case Some(Null) => true
    case Some(Number(_, _)) => true
    case Some(v) =>
      (ShownBy(source, v, q) || (v.Object? && forall f :: !AsksToShow(v, f))) && !HiddenBy(v, q)
  }

  lemma SelectedIsShown(source: Value, filter: Value, fields: seq<string>, q: Path)
    requires forall f :: f in fields <==> AsksToShow(filter, f)
    ensures ShownBy(source, filter, q) <==> Requested(source, fields, q) || OnTheWay(source, fields, q)
    ensures fields == [] <==> forall f :: !AsksToShow(filter, f)
  {
    hide ValueAt, AsksToShow, Glob.Split;
    if ShownBy(source, filter, q) {
      var f :| AsksToShow(filter, f) && ValueAt(source, PathOf(f)).Some? && (PathOf(f) <= q || q < PathOf(f));
      assert Present(source, fields, f);
    }
    if fields != [] {
      assert fields[0] in fields;
    }
  }

  /** Every form of filter shows, below the root, exactly the paths of the source it is to show. */
  lemma FilterShowsWhatItSays(source: Value, filter: Option<Value>, q: Path)
    requires q != []
    ensures var shown := Filtered(source, filter);
            ValueAt(shown, q).Some? <==> ValueAt(source, q).Some? && ShowsPath(source, filter, q)
  {
    hide ValueAt, Included, Excluded, AsksToShow, AsksToHide, Requested, OnTheWay, Hits, Strings, Glob.Split;
    match filter {
      case Some(Str(field)) =>
        ListShows(source, filter.value, [field], q);
      case Some(Array(values)) =>
        ListShows(source, filter.value, Strings(values), q);
      case Some(Object(_)) =>
        FilterShowsExactly(source, filter.value, q);
        ObjectAsks(filter.value);
        SelectedIsShown(source, filter.value, Includes(filter.value), q);
      case Some(Bool(false)) => NothingAt(q);
      case _ =>
    }
  }

  lemma NothingAt(q: Path)
    requires q != []
    ensures ValueAt(Null, q) == None
  {
  }

  lemma ObjectAsks(filter: Value)
    requires filter.Object?
    ensures forall f :: f in Includes(filter) <==> AsksToShow(filter, f)
    ensures forall f :: f in Excludes(filter) <==> AsksToHide(filter, f)
  {
    hide FieldList, Lists;
    FieldListIs(EitherKey(filter, "includes", "include"));
    FieldListIs(EitherKey(filter, "excludes", "exclude"));
  }

  lemma ListShows(source: Value, filter: Value, fields: seq<string>, q: Path)
    requires (filter.Str? && fields == [filter.s]) || (filter.Array? && fields == Strings(filter.items))
    requires q != []
    ensures ValueAt(Included(source, fields), q).Some? <==> ValueAt(source, q).Some? && ShownBy(source, filter, q)
    ensures !HiddenBy(filter, q)
  {
    hide ValueAt, Included, Requested, OnTheWay, Hits, Glob.Split;
    if filter.Array? {
      StringsAreListed(filter.items);
    }
    SelectedIsShown(source, filter, fields, q);
    IncludedShowsExactly(source, fields, q);
    if OnTheWay(source, fields, q) {
      OnTheWayIsObject(source, fields, q);
    }
  }
}
