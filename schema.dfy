/** `ExpressionList`: an ordered list of expressions with a parallel list of
    display names that are unique. It is the schema of a plan node: it is
    resolved against the schema of the node's input, projected, united with
    another list, and compared structurally. */
module Schema {
  import opened Common
  import opened Expressions
  import Dicts

  /** The name the constructor lists an unnamed entry under. The source means a
      positional placeholder, but its format string lacks the `f` prefix, so
      every unnamed entry gets this same literal text. */
  const Fallback: string := "col_{i}"

  function DisplayName(e: Expression): string {
    if e.Name().Some? then e.Name().value else Fallback
  }

  function DisplayNames(es: seq<Expression>): (r: seq<string>)
    ensures |r| == |es| && forall i :: 0 <= i < |es| ==> r[i] == DisplayName(es[i])
  {
    seq(|es|, i requires 0 <= i < |es| => DisplayName(es[i]))
  }

  datatype ExpressionList = ExpressionList(exprs: seq<Expression>, names: seq<string>) {

    /** `names` is index-aligned with `exprs`. */
    predicate Aligned() {
      |names| == |exprs|
    }

    /** What the constructor guarantees: each entry listed under its display
        name, and no name twice. */
    predicate WellFormed() {
      names == DisplayNames(exprs) && Distinct(names)
    }
  }

  /** The first position whose element already occurred before it. */
  function FirstRepeat(s: seq<string>): (k: nat)
    requires !Distinct(s)
    ensures k < |s| && s[k] in s[..k] && Distinct(s[..k])
  {
    var n := |s| - 1;
    if Distinct(s[..n]) then
      assert exists i :: 0 <= i < n && s[i] == s[n] by {
        forall a, b | 0 <= a < b < n ensures s[a] != s[b] {
          assert s[..n][a] == s[a] && s[..n][b] == s[b];
        }
        var i, j :| 0 <= i < j < |s| && s[i] == s[j];
        assert j == n;
      }
      n
    else
      var k := FirstRepeat(s[..n]);
      assert s[..n][..k] == s[..k];
      k
  }

  /** Any position that repeats an earlier element while everything before it
      is distinct is the first repeat. */
  lemma {:induction false} FirstRepeatUnique(s: seq<string>, i: nat)
    requires i < |s| && s[i] in s[..i] && Distinct(s[..i])
    ensures !Distinct(s) && FirstRepeat(s) == i
  {
    var n := |s| - 1;
    if i < n {
      assert s[..n][..i] == s[..i];
      assert s[..n][i] == s[i];
      FirstRepeatUnique(s[..n], i);
      FirstRepeatPrefix(s);
    } else {
      FirstRepeatLast(s);
    }
  }

  /** A last element that repeats an earlier one, after a distinct prefix, is
      the first repeat. */
  lemma FirstRepeatLast(s: seq<string>)
    requires |s| > 0 && s[|s| - 1] in s[..|s| - 1] && Distinct(s[..|s| - 1])
    ensures !Distinct(s) && FirstRepeat(s) == |s| - 1
  {
    var n := |s| - 1;
    var j :| 0 <= j < n && s[..n][j] == s[n];
    assert s[j] == s[n];
  }

  /** A repeat within the prefix is the first repeat of the whole. */
  lemma FirstRepeatPrefix(s: seq<string>)
    requires |s| > 0 && !Distinct(s[..|s| - 1])
    ensures !Distinct(s) && FirstRepeat(s) == FirstRepeat(s[..|s| - 1])
  {
    var n := |s| - 1;
    var a, b :| 0 <= a < b < n && s[..n][a] == s[..n][b];
    assert s[a] == s[b];
  }

  /** The outcome of `ExpressionList(exprs)`. */
  function Construct(es: seq<Expression>): (r: Result<ExpressionList>)
    ensures r.Ok? <==> Distinct(DisplayNames(es))
    ensures r.Ok? ==> r.value.exprs == es && r.value.WellFormed()
  {
    var names := DisplayNames(es);
    if Distinct(names) then Ok(ExpressionList(es, names))
    else Err(DuplicateName(names[FirstRepeat(names)]))
  }

  /** `ExpressionList.__init__`: lists every entry under its display name and
      fails on the first name already listed. */
  method Make(es: seq<Expression>) returns (r: Result<ExpressionList>)
    ensures r.Ok? <==> Distinct(DisplayNames(es))
    ensures r.Ok? ==> r.value == ExpressionList(es, DisplayNames(es))
    ensures r.Err? ==> exists i :: 0 <= i < |es| && r.error == DuplicateName(DisplayName(es[i]))
                                   && DisplayName(es[i]) in DisplayNames(es)[..i] && Distinct(DisplayNames(es)[..i])
    ensures r == Construct(es)
  {
    ghost var all := DisplayNames(es);
    var names: seq<string> := [];
    var nameSet: set<string> := {};
    var i := 0;
    while i < |es|
      invariant 0 <= i <= |es|
      invariant names == all[..i]
      invariant nameSet == Elements(names)
      invariant Distinct(names)
    {
      var name := DisplayName(es[i]);
      if name in nameSet {
        assert all[i] == name;
        FirstRepeatUnique(all, i);
        return Err(DuplicateName(name));
      }
      assert Distinct(names + [name]);
      names := names + [name];
      nameSet := nameSet + {name};
      i := i + 1;
    }
    assert all[..i] == all;
    r := Ok(ExpressionList(es, names));
  }

  /** Two unnamed entries always collide under the fallback name, so a list can
      hold at most one unnamed entry. */
  lemma UnnamedEntriesCollide(es: seq<Expression>, i: nat, j: nat)
    requires i < j < |es| && es[i].Name().None? && es[j].Name().None?
    ensures Construct(es).Err?
  {
    assert DisplayNames(es)[i] == DisplayNames(es)[j];
  }

  /** The first position holding `name`, if any. */
  function FindName(names: seq<string>, name: string): (r: Option<nat>)
    ensures r.None? <==> name !in names
    ensures r.Some? ==> r.value < |names| && names[r.value] == name && name !in names[..r.value]
  {
    if names == [] then None
    else if names[0] == name then Some(0)
    else
      match FindName(names[1..], name)
      case None => None
      case Some(k) =>
        assert names[..k + 1] == [names[0]] + names[1..][..k];
        Some(k + 1)
  }

  /** `get_expression_by_name`: the entry at the first position listed under
      `name`, or nothing. */
  function GetExpressionByName(l: ExpressionList, name: string): (r: Option<Expression>)
    requires l.Aligned()
    ensures r.None? <==> name !in l.names
    ensures r.Some? ==> exists i :: 0 <= i < |l.names| && l.names[i] == name && name !in l.names[..i] && r.value == l.exprs[i]
  {
    match FindName(l.names, name)
    case None => None
    case Some(i) => Some(l.exprs[i])
  }

  /** The first position of an entry with identity `id`, if any. */
  function FindId(es: seq<Expression>, id: ColID): (r: Option<nat>)
    ensures r.None? <==> forall i :: 0 <= i < |es| ==> es[i].Id() != Some(id)
    ensures r.Some? ==> r.value < |es| && es[r.value].Id() == Some(id)
                        && forall i :: 0 <= i < r.value ==> es[i].Id() != Some(id)
  {
    if es == [] then None
    else if es[0].Id() == Some(id) then Some(0)
    else
      match FindId(es[1..], id)
      case None =>
        assert forall i :: 1 <= i < |es| ==> es[i] == es[1..][i - 1];
        None
      case Some(k) =>
        assert forall i :: 1 <= i < k + 1 ==> es[i] == es[1..][i - 1];
        Some(k + 1)
  }

  /** `get_expression_by_id`: the first entry with identity `id`, or nothing. */
  function GetExpressionById(l: ExpressionList, id: ColID): (r: Option<Expression>)
    ensures r.None? <==> forall i :: 0 <= i < |l.exprs| ==> l.exprs[i].Id() != Some(id)
    ensures r.Some? ==> exists i :: 0 <= i < |l.exprs| && r.value == l.exprs[i] && l.exprs[i].Id() == Some(id)
                                    && forall k :: 0 <= k < i ==> l.exprs[k].Id() != Some(id)
  {
    match FindId(l.exprs, id)
    case None => None
    case Some(i) => Some(l.exprs[i])
  }

  function AnySame(es: seq<Expression>, column: Expression): (r: bool)
    ensures r <==> exists i :: 0 <= i < |es| && es[i].IsSame(column)
  {
    if es == [] then false
    else if es[0].IsSame(column) then true
    else
      assert forall i :: 1 <= i < |es| ==> es[i] == es[1..][i - 1];
      AnySame(es[1..], column)
  }

  /** `contains`: some entry carries the same identity as `column`. */
  function Contains(l: ExpressionList, column: Expression): (r: bool)
    ensures r <==> exists i :: 0 <= i < |l.exprs| && l.exprs[i].IsSame(column)
  {
    AnySame(l.exprs, column)
  }

  /** `all(s.is_eq(o) for s, o in zip(a, b))`: zip stops at the shorter list. */
  function PairwiseEq(a: seq<Expression>, b: seq<Expression>): (r: bool)
    ensures r <==> forall k :: 0 <= k < |a| && k < |b| ==> a[k].IsEq(b[k])
  {
    if a == [] || b == [] then true
    else
      assert forall k :: 1 <= k < |a| && k < |b| ==> a[k] == a[1..][k - 1] && b[k] == b[1..][k - 1];
      a[0].IsEq(b[0]) && PairwiseEq(a[1..], b[1..])
  }

  /** `__eq__`: equal lengths and structurally equal entries, position by position. */
  function Equal(l: ExpressionList, other: ExpressionList): (r: bool)
    ensures r <==> |l.exprs| == |other.exprs| && forall k :: 0 <= k < |l.exprs| ==> l.exprs[k].IsEq(other.exprs[k])
  {
    |l.exprs| == |other.exprs| && PairwiseEq(l.exprs, other.exprs)
  }

  /** List equality is an equivalence relation, and it is order-sensitive:
      the names play no part in it beyond the entries' own. */
  lemma EqualIsEquivalence(a: ExpressionList, b: ExpressionList, c: ExpressionList)
    ensures Equal(a, a)
    ensures Equal(a, b) ==> Equal(b, a)
    ensures Equal(a, b) && Equal(b, c) ==> Equal(a, c)
  {
    IsEqEquivalence();
  }

  /** `to_column_expressions`: a bare, bound column reference per entry. The
      names are kept, so a well-formed list always converts. */
  function ToColumnExpressions(l: ExpressionList): (r: Result<ExpressionList>)
    ensures l.WellFormed() ==> r.Ok? && r.value.names == l.names
    ensures r.Ok? ==> |r.value.exprs| == |l.exprs|
    ensures r.Ok? ==> forall k :: 0 <= k < |l.exprs| ==>
      r.value.exprs[k].Column? && r.value.exprs[k].ref.resolved
      && r.value.exprs[k].Name() == l.exprs[k].Name() && r.value.exprs[k].Id() == l.exprs[k].Id()
  {
    var es := seq(|l.exprs|, k requires 0 <= k < |l.exprs| => l.exprs[k].ToColumnExpression());
    assert DisplayNames(es) == DisplayNames(l.exprs);
    Construct(es)
  }

  /** `unresolve`: every entry without identity or bindings. The names are
      kept, and the result is structurally equal to the list. */
  function Unresolve(l: ExpressionList): (r: Result<ExpressionList>)
    ensures l.WellFormed() ==> r.Ok? && r.value.names == l.names && Equal(r.value, l)
    ensures r.Ok? ==> |r.value.exprs| == |l.exprs|
    ensures r.Ok? ==> forall k :: 0 <= k < |l.exprs| ==>
      r.value.exprs[k].Id().None? && r.value.exprs[k].Name() == l.exprs[k].Name()
      && forall c :: c in r.value.exprs[k].RequiredColumns(false) ==> !c.resolved
  {
    var es := seq(|l.exprs|, k requires 0 <= k < |l.exprs| => l.exprs[k].Unresolved());
    assert DisplayNames(es) == DisplayNames(l.exprs);
    Construct(es)
  }

  /** `to_id_set`: the identities of all entries; every entry must have one. */
  method ToIdSet(l: ExpressionList) returns (r: Result<set<ColID>>)
    ensures r.Ok? <==> forall k :: 0 <= k < |l.exprs| ==> l.exprs[k].Id().Some?
    ensures r.Err? ==> r.error == MissingId
    ensures r.Ok? ==> forall id :: id in r.value <==> exists k :: 0 <= k < |l.exprs| && l.exprs[k].Id() == Some(id)
  {
    var ids: set<ColID> := {};
    var i := 0;
    while i < |l.exprs|
      invariant 0 <= i <= |l.exprs|
      invariant forall k :: 0 <= k < i ==> l.exprs[k].Id().Some?
      invariant forall id :: id in ids <==> exists k :: 0 <= k < i && l.exprs[k].Id() == Some(id)
    {
      var id := l.exprs[i].Id();
      if id.None? {
        return Err(MissingId);
      }
      ids := ids + {id.value};
      i := i + 1;
    }
    r := Ok(ids);
  }

  /** The step of `keep`'s loop: the entry found under the next name joins
      the kept entries. */
  lemma KeptNext(l: ExpressionList, toKeep: seq<string>, kept: seq<Expression>, i: nat)
    requires l.WellFormed() && i < |toKeep| && |kept| == i
    requires forall k :: 0 <= k < i ==> toKeep[k] in l.names
    requires forall k :: 0 <= k < i ==> Some(kept[k]) == GetExpressionByName(l, toKeep[k]) && DisplayName(kept[k]) == toKeep[k]
    requires GetExpressionByName(l, toKeep[i]).Some?
    ensures var next := kept + [GetExpressionByName(l, toKeep[i]).value];
      && (forall k :: 0 <= k < i + 1 ==> toKeep[k] in l.names)
      && (forall k :: 0 <= k < i + 1 ==>
            Some(next[k]) == GetExpressionByName(l, toKeep[k]) && DisplayName(next[k]) == toKeep[k])
  {
    var e := GetExpressionByName(l, toKeep[i]).value;
    assert DisplayName(e) == toKeep[i];
    var next := kept + [e];
    forall k | 0 <= k < i + 1
      ensures Some(next[k]) == GetExpressionByName(l, toKeep[k]) && DisplayName(next[k]) == toKeep[k]
    {
      if k < i {
        assert next[k] == kept[k];
      }
    }
  }

  /** `keep(to_keep)`: the entries named in `toKeep`, in that order; the first
      name not listed fails, and so does a name requested twice (the new list
      would repeat it). */
  method Keep(l: ExpressionList, toKeep: seq<string>) returns (r: Result<ExpressionList>)
    requires l.WellFormed()
    ensures r.Ok? <==> (forall k :: 0 <= k < |toKeep| ==> toKeep[k] in l.names) && Distinct(toKeep)
    ensures r.Ok? ==> r.value.WellFormed() && r.value.names == toKeep && |r.value.exprs| == |toKeep|
    ensures r.Ok? ==> forall k :: 0 <= k < |toKeep| ==> Some(r.value.exprs[k]) == GetExpressionByName(l, toKeep[k])
    ensures (exists k :: 0 <= k < |toKeep| && toKeep[k] !in l.names) ==> r.Err? && r.error.NameNotFound?
    ensures r.Err? && r.error.NameNotFound? ==>
      exists k :: 0 <= k < |toKeep| && r.error.name == toKeep[k] && toKeep[k] !in l.names
                  && forall m :: 0 <= m < k ==> toKeep[m] in l.names
    ensures r.Err? ==> r.error.NameNotFound? || r.error.DuplicateName?
  {
    var kept: seq<Expression> := [];
    var i := 0;
    while i < |toKeep|
      invariant 0 <= i <= |toKeep|
      invariant |kept| == i
      invariant forall k :: 0 <= k < i ==> toKeep[k] in l.names
      invariant forall k :: 0 <= k < i ==> Some(kept[k]) == GetExpressionByName(l, toKeep[k]) && DisplayName(kept[k]) == toKeep[k]
    {
      var e := GetExpressionByName(l, toKeep[i]);
      if e.None? {
        return Err(NameNotFound(toKeep[i]));
      }
      KeptNext(l, toKeep, kept, i);
      kept := kept + [e.value];
      i := i + 1;
    }
    assert DisplayNames(kept) == toKeep;
    r := Make(kept);
  }

  /** Some named entry of `left` is structurally equal to `o` under its name. */
  predicate NamedIn(left: seq<Expression>, o: Expression) {
    o.Name().Some? && exists k :: 0 <= k < |left| && left[k].Name() == o.Name() && left[k].IsEq(o)
  }

  /** Right entry `o` is accounted for in the united entries `d`: an unnamed one
      is there itself, a named one is there under its name in an equal form,
      or (unless strict) aliased to the renaming prefix plus its name. */
  predicate Represented(d: seq<Expression>, o: Expression, strict: bool, renameDup: string) {
    if o.Name().None? then o in d
    else NamedIn(d, o) || (!strict && o.Alias(renameDup + o.Name().value) in d)
  }

  /** `x` is a right entry, or (unless strict) the alias of one. */
  predicate FromRight(x: Expression, right: seq<Expression>, strict: bool, renameDup: string) {
    x in right || (!strict && exists o :: o in right && o.Name().Some? && x == o.Alias(renameDup + o.Name().value))
  }

  /** Every entry recorded as seen is present in `d` under its own name. */
  predicate SeenIn(seen: map<string, Expression>, d: seq<Expression>) {
    forall n :: n in seen ==> seen[n] in d && seen[n].Name() == Some(n)
  }

  lemma RepresentedAppend(d: seq<Expression>, x: Expression, right: seq<Expression>, j: nat, strict: bool, renameDup: string)
    requires j <= |right|
    requires forall m :: 0 <= m < j ==> Represented(d, right[m], strict, renameDup)
    ensures forall m :: 0 <= m < j ==> Represented(d + [x], right[m], strict, renameDup)
  {
    forall m | 0 <= m < j ensures Represented(d + [x], right[m], strict, renameDup) {
      var o := right[m];
      if o.Name().Some? && NamedIn(d, o) {
        var k :| 0 <= k < |d| && d[k].Name() == o.Name() && d[k].IsEq(o);
        assert (d + [x])[k] == d[k];
      }
    }
  }

  lemma RepresentedExtend(d: seq<Expression>, right: seq<Expression>, j: nat, strict: bool, renameDup: string)
    requires j < |right|
    requires forall m :: 0 <= m < j ==> Represented(d, right[m], strict, renameDup)
    requires Represented(d, right[j], strict, renameDup)
    ensures forall m :: 0 <= m < j + 1 ==> Represented(d, right[m], strict, renameDup)
  {
  }

  lemma FromRightAppend(d: seq<Expression>, x: Expression, lo: nat, right: seq<Expression>, strict: bool, renameDup: string)
    requires lo <= |d|
    requires forall k :: lo <= k < |d| ==> FromRight(d[k], right, strict, renameDup)
    requires FromRight(x, right, strict, renameDup)
    ensures forall k :: lo <= k < |d + [x]| ==> FromRight((d + [x])[k], right, strict, renameDup)
  {
    forall k | lo <= k < |d + [x]| ensures FromRight((d + [x])[k], right, strict, renameDup) {
      if k < |d| { assert (d + [x])[k] == d[k]; }
    }
  }

  lemma SeenAppend(seen: map<string, Expression>, d: seq<Expression>, n: string, x: Expression)
    requires SeenIn(seen, d) && x.Name() == Some(n)
    ensures SeenIn(seen[n := x], d + [x])
  {
  }

  /** The first loop of `union`: every named left entry under its name. */
  method SeenNames(l: ExpressionList) returns (seen: map<string, Expression>)
    requires l.WellFormed()
    ensures SeenIn(seen, l.exprs)
    ensures forall k :: 0 <= k < |l.exprs| && l.exprs[k].Name().Some? ==>
      l.exprs[k].Name().value in seen && seen[l.exprs[k].Name().value] == l.exprs[k]
    ensures seen == SeenOf(l.exprs)
  {
    var left := l.exprs;
    seen := map[];
    var i := 0;
    while i < |left|
      invariant 0 <= i <= |left|
      invariant seen == SeenOf(left[..i])
    {
      var name := left[i].Name();
      if name.Some? {
        seen := seen[name.value := left[i]];
      }
      SeenOfNext(left, i);
      i := i + 1;
    }
    assert left[..i] == left;
    SeenOfEntries(left);
    WellFormedNamesApart(l);
    SeenOfNamed(left);
  }

  lemma SeenOfNext(left: seq<Expression>, i: nat)
    requires i < |left|
    ensures SeenOf(left[..i + 1]) ==
      if left[i].Name().Some? then SeenOf(left[..i])[left[i].Name().value := left[i]] else SeenOf(left[..i])
  {
    assert left[..i + 1][..i] == left[..i];
  }

  /** `union`'s second loop as a value: the entries so far and the names
      seen, or the name that stopped a strict union. */
  datatype UnionAcc = Going(deduped: seq<Expression>, seen: map<string, Expression>) | Conflicted(name: string)

  /** The map `union`'s first loop builds: each named entry under its name. */
  function SeenOf(left: seq<Expression>): map<string, Expression>
  {
    if left == [] then map[]
    else
      var e := left[|left| - 1];
      var s := SeenOf(left[..|left| - 1]);
      if e.Name().Some? then s[e.Name().value := e] else s
  }

  /** What `union`'s second loop does with one right entry: an unnamed one is
      appended; a named one is appended when its name is new, dropped when it
      is structurally equal to the entry seen under its name, and otherwise a
      conflict when strict, or appended aliased to `renameDup + name`. */
  function UnionStep(strict: bool, renameDup: string, acc: UnionAcc, e: Expression): UnionAcc
  {
    match acc
    case Conflicted(_) => acc
    case Going(d, s) =>
      if e.Name().None? then Going(d + [e], s)
      else
        var n := e.Name().value;
        if n !in s then Going(d + [e], s[n := e])
        else if s[n].IsEq(e) then acc
        else if strict then Conflicted(n)
        else
          var x := e.Alias(renameDup + n);
          Going(d + [x], s[renameDup + n := x])
  }

  /** `union`'s two loops: the left entries with their names seen, then every
      right entry in order. */
  function UnionFold(left: seq<Expression>, right: seq<Expression>, strict: bool, renameDup: string): UnionAcc
  {
    if right == [] then Going(left, SeenOf(left))
    else UnionStep(strict, renameDup, UnionFold(left, right[..|right| - 1], strict, renameDup), right[|right| - 1])
  }

  /** `union(other, strict, rename_dup)` as a value: the conflict that stopped
      the loop, or the list built from the entries it kept. */
  function UnionOf(l: ExpressionList, other: ExpressionList, strict: bool, renameDup: string): Result<ExpressionList>
  {
    match UnionFold(l.exprs, other.exprs, strict, renameDup)
    case Conflicted(n) => Err(Conflict(n))
    case Going(d, _) => Construct(d)
  }

  lemma UnionFoldNext(left: seq<Expression>, right: seq<Expression>, strict: bool, renameDup: string, j: nat)
    requires j < |right|
    ensures UnionFold(left, right[..j + 1], strict, renameDup)
         == UnionStep(strict, renameDup, UnionFold(left, right[..j], strict, renameDup), right[j])
  {
    assert right[..j + 1][..j] == right[..j];
  }

  /** Once the loop has stopped on a conflict, the rest of the right entries
      change nothing. */
  lemma {:induction false} UnionFoldStops(left: seq<Expression>, right: seq<Expression>, strict: bool, renameDup: string, j: nat)
    requires j <= |right| && UnionFold(left, right[..j], strict, renameDup).Conflicted?
    ensures UnionFold(left, right, strict, renameDup) == UnionFold(left, right[..j], strict, renameDup)
  {
    if j == |right| {
      assert right[..j] == right;
    } else {
      var pre := right[..|right| - 1];
      assert pre[..j] == right[..j];
      UnionFoldStops(left, pre, strict, renameDup, j);
    }
  }

  /** What holds after the first `j` right entries have been processed by
      `union`'s second loop: `deduped` and `seen` are its accumulators, `seen0`
      is `seen` as the first loop left it. */
  predicate UnionState(left: seq<Expression>, right: seq<Expression>, strict: bool, renameDup: string,
                       j: nat, deduped: seq<Expression>, seen: map<string, Expression>, seen0: map<string, Expression>)
  {
    && j <= |right|
    && |left| <= |deduped| <= |left| + j
    && deduped[..|left|] == left
    && SeenIn(seen, deduped)
    && (forall k :: 0 <= k < |left| && left[k].Name().Some? ==> left[k].Name().value in seen)
    && (strict ==> forall k :: 0 <= k < |left| && left[k].Name().Some? ==> seen[left[k].Name().value] == left[k])
    && (forall m :: 0 <= m < j ==> Represented(deduped, right[m], strict, renameDup))
    && (forall k :: |left| <= k < |deduped| ==> FromRight(deduped[k], right, strict, renameDup))
    && (forall k :: 0 <= k < |left| && left[k].Name().Some? ==> left[k].Name().value in seen0 && seen0[left[k].Name().value] == left[k])
    && ((forall m :: 0 <= m < j ==> NamedIn(left, right[m])) ==> deduped == left && seen == seen0)
  }

  /** An unnamed right entry is appended. */
  lemma UnionStepUnnamed(left: seq<Expression>, right: seq<Expression>, strict: bool, renameDup: string,
                         j: nat, deduped: seq<Expression>, seen: map<string, Expression>, seen0: map<string, Expression>)
    requires j < |right| && right[j].Name().None?
    requires UnionState(left, right, strict, renameDup, j, deduped, seen, seen0)
    ensures UnionState(left, right, strict, renameDup, j + 1, deduped + [right[j]], seen, seen0)
  {
    var e := right[j];
    var d := deduped + [e];
    FromRightAppend(deduped, e, |left|, right, strict, renameDup);
    RepresentedAppend(deduped, e, right, j, strict, renameDup);
    assert d[..|left|] == left;
    assert !NamedIn(left, e);
    assert Represented(d, e, strict, renameDup);
    RepresentedExtend(d, right, j, strict, renameDup);
  }

  /** A named right entry equal to the one seen under its name is dropped. */
  lemma UnionStepDrop(left: seq<Expression>, right: seq<Expression>, strict: bool, renameDup: string,
                      j: nat, deduped: seq<Expression>, seen: map<string, Expression>, seen0: map<string, Expression>)
    requires j < |right| && right[j].Name().Some?
    requires right[j].Name().value in seen && seen[right[j].Name().value].IsEq(right[j])
    requires UnionState(left, right, strict, renameDup, j, deduped, seen, seen0)
    ensures UnionState(left, right, strict, renameDup, j + 1, deduped, seen, seen0)
  {
    var e := right[j];
    var n := e.Name().value;
    var w :| 0 <= w < |deduped| && deduped[w] == seen[n];
    assert NamedIn(deduped, e);
    assert Represented(deduped, e, strict, renameDup);
  }

  /** A named right entry whose name the prefix has not seen is appended. */
  lemma UnionStepNew(left: seq<Expression>, right: seq<Expression>, strict: bool, renameDup: string,
                     j: nat, deduped: seq<Expression>, seen: map<string, Expression>, seen0: map<string, Expression>)
    requires j < |right| && right[j].Name().Some? && right[j].Name().value !in seen
    requires UnionState(left, right, strict, renameDup, j, deduped, seen, seen0)
    ensures UnionState(left, right, strict, renameDup, j + 1, deduped + [right[j]], seen[right[j].Name().value := right[j]], seen0)
  {
    var o := right[j];
    var d := deduped + [o];
    assert !NamedIn(left, o);
    SeenAppend(seen, deduped, o.Name().value, o);
    FromRightAppend(deduped, o, |left|, right, strict, renameDup);
    RepresentedAppend(deduped, o, right, j, strict, renameDup);
    assert d[..|left|] == left;
    assert d[|d| - 1] == o;
    assert Represented(d, o, strict, renameDup);
    RepresentedExtend(d, right, j, strict, renameDup);
  }

  /** Not strict: a named right entry that differs from the entry seen under
      its name is appended, aliased to the renaming prefix plus its name. */
  lemma UnionStepRenamed(left: seq<Expression>, right: seq<Expression>, strict: bool, renameDup: string,
                         j: nat, deduped: seq<Expression>, seen: map<string, Expression>, seen0: map<string, Expression>)
    requires !strict && j < |right| && right[j].Name().Some?
    requires right[j].Name().value in seen && !seen[right[j].Name().value].IsEq(right[j])
    requires UnionState(left, right, strict, renameDup, j, deduped, seen, seen0)
    ensures var n := renameDup + right[j].Name().value; var x := right[j].Alias(n);
      UnionState(left, right, strict, renameDup, j + 1, deduped + [x], seen[n := x], seen0)
  {
    var o := right[j];
    var n := renameDup + o.Name().value;
    var x := o.Alias(n);
    var d := deduped + [x];
    assert (forall m :: 0 <= m < j ==> NamedIn(left, right[m])) ==> !NamedIn(left, o);
    SeenAppend(seen, deduped, n, x);
    assert FromRight(x, right, strict, renameDup) by {
      assert o in right;
    }
    FromRightAppend(deduped, x, |left|, right, strict, renameDup);
    RepresentedAppend(deduped, x, right, j, strict, renameDup);
    assert d[..|left|] == left;
    assert d[|d| - 1] == x;
    assert Represented(d, o, strict, renameDup);
    RepresentedExtend(d, right, j, strict, renameDup);
  }

  /** `union(other, strict, rename_dup)`: the left entries, then every right
      entry not already present under its name in an equal form; a right entry
      whose name is taken by a different one is a conflict when `strict`, and
      is otherwise appended under `renameDup + name`. */
  method Union(l: ExpressionList, other: ExpressionList, strict: bool, renameDup: string) returns (r: Result<ExpressionList>)
    requires l.WellFormed()
    ensures r.Err? ==> (strict && r.error.Conflict?) || r.error.DuplicateName?
    ensures r.Err? && r.error.Conflict? <==> strict && NameClash(l.exprs, other.exprs)
    ensures r.Ok? ==> r.value.WellFormed()
    ensures r.Ok? ==> |l.exprs| <= |r.value.exprs| <= |l.exprs| + |other.exprs|
    ensures r.Ok? ==> r.value.exprs[..|l.exprs|] == l.exprs
    ensures r.Ok? ==> forall m :: 0 <= m < |other.exprs| ==> Represented(r.value.exprs, other.exprs[m], strict, renameDup)
    ensures r.Ok? ==> forall k :: |l.exprs| <= k < |r.value.exprs| ==> FromRight(r.value.exprs[k], other.exprs, strict, renameDup)
    ensures (forall m :: 0 <= m < |other.exprs| ==> NamedIn(l.exprs, other.exprs[m])) ==> r == Ok(l)
    ensures r == UnionOf(l, other, strict, renameDup)
  {
    var left := l.exprs;
    var deduped := left;
    var seen := SeenNames(l);
    ghost var seen0 := seen;

    var right := other.exprs;
    var j := 0;
    while j < |right|
      invariant UnionState(left, right, strict, renameDup, j, deduped, seen, seen0)
      invariant UnionFold(left, right[..j], strict, renameDup) == Going(deduped, seen)
    {
      var conflict;
      UnionFoldNext(left, right, strict, renameDup, j);
      conflict, deduped, seen := UnionEntry(left, right, strict, renameDup, j, deduped, seen, seen0);
      if conflict.Some? {
        UnionFoldStops(left, right, strict, renameDup, j + 1);
        r := Err(Conflict(conflict.value));
        UnionConflicts(l, other, strict, renameDup, r);
        return;
      }
      j := j + 1;
    }
    assert right[..j] == right;
    r := Make(deduped);
    UnionConflicts(l, other, strict, renameDup, r);
  }

  /** The conflict clause of `UnionOutcome`, for a result known to be the fold's. */
  lemma UnionConflicts(l: ExpressionList, other: ExpressionList, strict: bool, renameDup: string, r: Result<ExpressionList>)
    requires l.WellFormed() && r == UnionOf(l, other, strict, renameDup)
    ensures r.Err? && r.error.Conflict? <==> strict && NameClash(l.exprs, other.exprs)
  {
    UnionOutcome(l, other, strict, renameDup);
  }

  /** One step of `union`'s loop: right entry `j` is dropped, appended, or
      appended under the renaming prefix, or its name is a conflict. */
  method UnionEntry(left: seq<Expression>, right: seq<Expression>, strict: bool, renameDup: string, j: nat,
                    deduped: seq<Expression>, seen: map<string, Expression>, ghost seen0: map<string, Expression>)
    returns (conflict: Option<string>, deduped': seq<Expression>, seen': map<string, Expression>)
    requires j < |right| && UnionState(left, right, strict, renameDup, j, deduped, seen, seen0)
    ensures conflict.Some? ==> strict && !NamedIn(left, right[j])
    ensures conflict.None? ==> UnionState(left, right, strict, renameDup, j + 1, deduped', seen', seen0)
    ensures UnionStep(strict, renameDup, Going(deduped, seen), right[j])
         == if conflict.Some? then Conflicted(conflict.value) else Going(deduped', seen')
  {
    var e := right[j];
    var name := e.Name();
    deduped', seen' := deduped, seen;
    conflict := None;
    if name.None? {
      UnionStepUnnamed(left, right, strict, renameDup, j, deduped, seen, seen0);
      deduped' := deduped + [e];
    } else if name.value in seen && seen[name.value].IsEq(e) {
      UnionStepDrop(left, right, strict, renameDup, j, deduped, seen, seen0);
    } else {
      var n := name.value;
      if n in seen {
        if strict {
          return Some(n), deduped, seen;
        }
        UnionStepRenamed(left, right, strict, renameDup, j, deduped, seen, seen0);
        n := renameDup + n;
        e := e.Alias(n);
      } else {
        UnionStepNew(left, right, strict, renameDup, j, deduped, seen, seen0);
      }
      deduped' := deduped + [e];
      seen' := seen[n := e];
    }
  }

  /** Every entry of the seen map is an entry of the list, under its own name. */
  lemma {:induction false} SeenOfEntries(left: seq<Expression>)
    ensures forall n :: n in SeenOf(left) ==> SeenOf(left)[n] in left && SeenOf(left)[n].Name() == Some(n)
  {
    if left != [] {
      var pre := left[..|left| - 1];
      SeenOfEntries(pre);
      assert forall x :: x in pre ==> x in left;
    }
  }

  /** Named entries whose names differ from every other named entry's. */
  predicate NamesApart(left: seq<Expression>) {
    forall a, b :: 0 <= a < b < |left| && left[a].Name().Some? ==> left[a].Name() != left[b].Name()
  }

  lemma WellFormedNamesApart(l: ExpressionList)
    requires l.WellFormed()
    ensures NamesApart(l.exprs)
  {
    forall a, b | 0 <= a < b < |l.exprs| && l.exprs[a].Name().Some? ensures l.exprs[a].Name() != l.exprs[b].Name() {
      assert l.names[a] == DisplayName(l.exprs[a]) && l.names[b] == DisplayName(l.exprs[b]);
    }
  }

  /** With names apart, each named entry is the one seen under its name. */
  lemma {:induction false} SeenOfNamed(left: seq<Expression>)
    requires NamesApart(left)
    ensures forall x :: x in left && x.Name().Some? ==> x.Name().value in SeenOf(left) && SeenOf(left)[x.Name().value] == x
  {
    if left != [] {
      var pre := left[..|left| - 1];
      var e := left[|left| - 1];
      assert NamesApart(pre);
      SeenOfNamed(pre);
      forall x | x in left && x.Name().Some?
        ensures x.Name().value in SeenOf(left) && SeenOf(left)[x.Name().value] == x
      {
        if x != e {
          var a :| 0 <= a < |left| && left[a] == x;
          assert x in pre && x.Name() != e.Name();
        }
      }
    }
  }

  /** Not strict, `union` never stops on a conflict. */
  lemma {:induction false} LooseUnionGoesOn(left: seq<Expression>, right: seq<Expression>, renameDup: string)
    ensures UnionFold(left, right, false, renameDup).Going?
  {
    if right != [] {
      LooseUnionGoesOn(left, right[..|right| - 1], renameDup);
    }
  }

  /** Right entry `m` is named, and an entry before it, left or right, has its
      name but a different structure. */
  predicate ClashAt(left: seq<Expression>, right: seq<Expression>, m: nat)
    requires m < |right|
  {
    right[m].Name().Some? && exists x :: x in left + right[..m] && x.Name() == right[m].Name() && !x.IsEq(right[m])
  }

  /** Some right entry clashes with an entry before it. */
  predicate NameClash(left: seq<Expression>, right: seq<Expression>) {
    exists m :: 0 <= m < |right| && ClashAt(left, right, m)
  }

  /** `e` is unnamed, or no entry of `prior` has its name. */
  predicate NameIsNew(prior: seq<Expression>, e: Expression) {
    e.Name().None? || forall x :: x in prior ==> x.Name() != e.Name()
  }

  /** The right entries a strict union keeps: the unnamed ones, and the first
      of each name that no left entry has. */
  function StrictKept(left: seq<Expression>, right: seq<Expression>): seq<Expression>
  {
    if right == [] then []
    else
      var pre := right[..|right| - 1];
      var e := right[|right| - 1];
      StrictKept(left, pre) + (if NameIsNew(left + pre, e) then [e] else [])
  }

  /** What a strict union knows after the first `j` right entries: either an
      entry among them clashed, or none did, the kept entries follow the left
      ones, and the seen map holds, under each name met, an entry met, which
      is structurally equal to every entry met of that name. */
  predicate StrictInv(left: seq<Expression>, right: seq<Expression>, j: nat, acc: UnionAcc)
    requires j <= |right|
  {
    if acc.Conflicted? then exists m :: 0 <= m < j && ClashAt(left, right, m)
    else
      && acc.deduped == left + StrictKept(left, right[..j])
      && (forall n :: n in acc.seen ==> acc.seen[n] in left + right[..j] && acc.seen[n].Name() == Some(n))
      && (forall x :: x in left + right[..j] && x.Name().Some? ==>
            x.Name().value in acc.seen && acc.seen[x.Name().value].IsEq(x))
      && (forall m :: 0 <= m < j ==> !ClashAt(left, right, m))
  }

  lemma StrictStart(left: seq<Expression>, right: seq<Expression>, renameDup: string)
    requires NamesApart(left)
    ensures StrictInv(left, right, 0, UnionFold(left, right[..0], true, renameDup))
  {
    assert right[..0] == [] && left + [] == left;
    SeenOfEntries(left);
    SeenOfNamed(left);
  }

  lemma StrictKeptNext(left: seq<Expression>, right: seq<Expression>, j: nat)
    requires j < |right|
    ensures StrictKept(left, right[..j + 1])
         == StrictKept(left, right[..j]) + (if NameIsNew(left + right[..j], right[j]) then [right[j]] else [])
  {
    assert right[..j + 1][..j] == right[..j];
  }

  /** One right entry of a strict union keeps `StrictInv`. */
  lemma StrictStep(left: seq<Expression>, right: seq<Expression>, renameDup: string, j: nat, acc: UnionAcc)
    requires j < |right| && acc.Going? && StrictInv(left, right, j, acc)
    ensures StrictInv(left, right, j + 1, UnionStep(true, renameDup, acc, right[j]))
  {
    var e := right[j];
    if e.Name().None? || e.Name().value !in acc.seen {
      StrictAppends(left, right, j, acc);
    } else if acc.seen[e.Name().value].IsEq(e) {
      StrictDrops(left, right, j, acc);
    } else {
      assert acc.seen[e.Name().value] in left + right[..j];
      assert ClashAt(left, right, j);
    }
  }

  /** A strict union appends a right entry that is unnamed or whose name is new. */
  lemma StrictAppends(left: seq<Expression>, right: seq<Expression>, j: nat, acc: UnionAcc)
    requires j < |right| && acc.Going? && StrictInv(left, right, j, acc)
    requires right[j].Name().None? || right[j].Name().value !in acc.seen
    ensures var e := right[j];
      StrictInv(left, right, j + 1, Going(acc.deduped + [e], if e.Name().None? then acc.seen else acc.seen[e.Name().value := e]))
  {
    var e := right[j];
    var prior := left + right[..j];
    assert left + right[..j + 1] == prior + [e];
    assert NameIsNew(prior, e) by {
      if e.Name().Some? {
        forall x | x in prior ensures x.Name() != e.Name() {
          if x.Name().Some? {
            assert x.Name().value in acc.seen;
          }
        }
      }
    }
    StrictKeptNext(left, right, j);
    assert !ClashAt(left, right, j);
  }

  /** A strict union drops a right entry equal to the one seen under its name. */
  lemma StrictDrops(left: seq<Expression>, right: seq<Expression>, j: nat, acc: UnionAcc)
    requires j < |right| && acc.Going? && StrictInv(left, right, j, acc)
    requires right[j].Name().Some? && right[j].Name().value in acc.seen && acc.seen[right[j].Name().value].IsEq(right[j])
    ensures StrictInv(left, right, j + 1, acc)
  {
    var e := right[j];
    var prior := left + right[..j];
    assert left + right[..j + 1] == prior + [e];
    assert !NameIsNew(prior, e) by {
      assert acc.seen[e.Name().value] in prior;
    }
    StrictKeptNext(left, right, j);
    assert !ClashAt(left, right, j) by {
      forall x | x in prior && x.Name() == e.Name() ensures x.IsEq(e) {
        assert acc.seen[x.Name().value].IsEq(x);
      }
    }
  }

  /** One more right entry keeps `StrictInv`. */
  lemma StrictNext(left: seq<Expression>, right: seq<Expression>, renameDup: string, j: nat)
    requires j < |right| && StrictInv(left, right, j, UnionFold(left, right[..j], true, renameDup))
    ensures StrictInv(left, right, j + 1, UnionFold(left, right[..j + 1], true, renameDup))
  {
    UnionFoldNext(left, right, true, renameDup, j);
    var acc := UnionFold(left, right[..j], true, renameDup);
    if acc.Going? {
      StrictStep(left, right, renameDup, j, acc);
    } else {
      StrictStopped(left, right, renameDup, j, acc);
    }
  }

  lemma {:induction false} StrictFold(left: seq<Expression>, right: seq<Expression>, renameDup: string, j: nat)
    requires j <= |right| && StrictInv(left, right, j, UnionFold(left, right[..j], true, renameDup))
    ensures StrictInv(left, right, |right|, UnionFold(left, right, true, renameDup))
    decreases |right| - j
  {
    if j == |right| {
      assert right[..j] == right;
    } else {
      StrictNext(left, right, renameDup, j);
      StrictFold(left, right, renameDup, j + 1);
    }
  }

  /** A strict union stopped by a conflict stays stopped. */
  lemma StrictStopped(left: seq<Expression>, right: seq<Expression>, renameDup: string, j: nat, acc: UnionAcc)
    requires j < |right| && acc.Conflicted? && StrictInv(left, right, j, acc)
    ensures StrictInv(left, right, j + 1, UnionStep(true, renameDup, acc, right[j]))
  {
    var m :| 0 <= m < j && ClashAt(left, right, m);
  }

  /** A strict union stops on a conflict exactly when some right entry
      clashes with an earlier one, and otherwise keeps `StrictKept`. */
  lemma StrictOutcome(left: seq<Expression>, right: seq<Expression>, renameDup: string)
    requires NamesApart(left)
    ensures var acc := UnionFold(left, right, true, renameDup);
      (acc.Conflicted? <==> NameClash(left, right))
      && (acc.Going? ==> acc.deduped == left + StrictKept(left, right))
  {
    StrictStart(left, right, renameDup);
    StrictFold(left, right, renameDup, 0);
    assert right[..|right|] == right;
    if UnionFold(left, right, true, renameDup).Conflicted? {
      var m :| 0 <= m < |right| && ClashAt(left, right, m);
    }
  }

  /** `union`'s outcome. Strict, it raises a conflict exactly when some right
      entry is named like an earlier entry, left or right, of a different
      structure; otherwise it keeps, after the left entries, the unnamed right
      entries and the first of each name no left entry has. Not strict, it
      never raises a conflict. Either way the only other failure is a display
      name listed twice. */
  lemma UnionOutcome(l: ExpressionList, other: ExpressionList, strict: bool, renameDup: string)
    requires l.WellFormed()
    ensures var r := UnionOf(l, other, strict, renameDup);
      && (r.Err? ==> r.error.Conflict? || r.error.DuplicateName?)
      && (r.Err? && r.error.Conflict? <==> strict && NameClash(l.exprs, other.exprs))
      && (strict && !NameClash(l.exprs, other.exprs) ==>
            var kept := l.exprs + StrictKept(l.exprs, other.exprs);
            (r.Ok? <==> Distinct(DisplayNames(kept))) && (r.Ok? ==> r.value.exprs == kept))
  {
    if strict {
      WellFormedNamesApart(l);
      StrictOutcome(l.exprs, other.exprs, renameDup);
    } else {
      LooseUnionGoesOn(l.exprs, other.exprs, renameDup);
    }
  }

  /** Two lists with no display name in common unite to the one after the
      other, strict or not. */
  lemma UnionDisjoint(l: ExpressionList, other: ExpressionList, strict: bool, renameDup: string)
    requires l.WellFormed() && other.WellFormed()
    requires forall a, b :: 0 <= a < |l.names| && 0 <= b < |other.names| ==> l.names[a] != other.names[b]
    ensures UnionOf(l, other, strict, renameDup) == Ok(ExpressionList(l.exprs + other.exprs, l.names + other.names))
  {
    DisjointFold(l, other, strict, renameDup, |other.exprs|);
    assert other.exprs[..|other.exprs|] == other.exprs;
    var es := l.exprs + other.exprs;
    assert DisplayNames(es) == l.names + other.names;
    NamesConcatDistinct(l.names, other.names);
  }

  lemma NamesConcatDistinct(a: seq<string>, b: seq<string>)
    requires Distinct(a) && Distinct(b)
    requires forall i, k :: 0 <= i < |a| && 0 <= k < |b| ==> a[i] != b[k]
    ensures Distinct(a + b)
  {
    var ns := a + b;
    forall i, k | 0 <= i < k < |ns| ensures ns[i] != ns[k] {
      if k < |a| {
      } else if i >= |a| {
        assert ns[i] == b[i - |a|] && ns[k] == b[k - |a|];
      }
    }
  }

  lemma {:induction false} DisjointFold(l: ExpressionList, other: ExpressionList, strict: bool, renameDup: string, j: nat)
    requires l.WellFormed() && other.WellFormed() && j <= |other.exprs|
    requires forall a, b :: 0 <= a < |l.names| && 0 <= b < |other.names| ==> l.names[a] != other.names[b]
    ensures var acc := UnionFold(l.exprs, other.exprs[..j], strict, renameDup);
      acc.Going? && acc.deduped == l.exprs + other.exprs[..j]
      && forall n :: n in acc.seen ==> n in l.names || n in other.names[..j]
  {
    var left, right := l.exprs, other.exprs;
    if j == 0 {
      assert right[..0] == [] && left + [] == left;
      SeenOfEntries(left);
      forall n | n in SeenOf(left) ensures n in l.names {
        var a :| 0 <= a < |left| && left[a] == SeenOf(left)[n];
        assert l.names[a] == DisplayName(left[a]);
      }
    } else {
      DisjointFold(l, other, strict, renameDup, j - 1);
      UnionFoldNext(left, right, strict, renameDup, j - 1);
      DisjointStep(l, other, strict, renameDup, j - 1);
    }
  }

  lemma DisjointStep(l: ExpressionList, other: ExpressionList, strict: bool, renameDup: string, j: nat)
    requires l.WellFormed() && other.WellFormed() && j < |other.exprs|
    requires forall a, b :: 0 <= a < |l.names| && 0 <= b < |other.names| ==> l.names[a] != other.names[b]
    requires var acc := UnionFold(l.exprs, other.exprs[..j], strict, renameDup);
      acc.Going? && acc.deduped == l.exprs + other.exprs[..j]
      && forall n :: n in acc.seen ==> n in l.names || n in other.names[..j]
    ensures var acc := UnionStep(strict, renameDup, UnionFold(l.exprs, other.exprs[..j], strict, renameDup), other.exprs[j]);
      acc.Going? && acc.deduped == l.exprs + other.exprs[..j + 1]
      && forall n :: n in acc.seen ==> n in l.names || n in other.names[..j + 1]
  {
    var e := other.exprs[j];
    assert other.exprs[..j + 1] == other.exprs[..j] + [e];
    assert other.names[..j + 1] == other.names[..j] + [other.names[j]];
    if e.Name().Some? {
      var n := e.Name().value;
      assert other.names[j] == n;
      assert n !in l.names;
      assert n !in other.names[..j] by {
        forall b | 0 <= b < j ensures other.names[b] != n {
          assert other.names[b] == other.names[..j][b];
        }
      }
    }
  }

  /** All column references the entries read, entry by entry, in order. */
  function AllRefs(es: seq<Expression>): (r: seq<ColumnRef>)
  {
    if es == [] then [] else AllRefs(es[..|es| - 1]) + es[|es| - 1].RequiredColumns(false)
  }

  /** The references of a prefix of the entries come first among all of them. */
  lemma {:induction false} AllRefsPrefix(es: seq<Expression>, i: nat)
    requires i <= |es|
    ensures AllRefs(es[..i]) <= AllRefs(es)
  {
    if i < |es| {
      var n := |es| - 1;
      assert es[..n][..i] == es[..i];
      AllRefsPrefix(es[..n], i);
    } else {
      assert es[..i] == es;
    }
  }

  predicate AllNamed(refs: seq<ColumnRef>) {
    forall k :: 0 <= k < |refs| ==> refs[k].name.Some?
  }

  function RefKeys(refs: seq<ColumnRef>): (r: seq<string>)
    requires AllNamed(refs)
    ensures |r| == |refs| && forall k :: 0 <= k < |refs| ==> Some(r[k]) == refs[k].name
  {
    seq(|refs|, k requires 0 <= k < |refs| => refs[k].name.value)
  }

  /** `[e for e in d.values()]` over a name-to-reference dict: one bare column
      per name, in the dict's order. */
  function ColumnsOf(d: Dicts.Dict<string, ColumnRef>): (r: seq<Expression>)
    requires d.Valid()
    ensures |r| == |d.keys| && forall k :: 0 <= k < |d.keys| ==> r[k] == Column(d.items[d.keys[k]])
  {
    seq(|d.keys|, k requires 0 <= k < |d.keys| => Column(d.items[d.keys[k]]))
  }

  /** The name-to-reference dict `required_columns` builds, one reference at
      a time. */
  function NameIndex(refs: seq<ColumnRef>): (d: Dicts.Dict<string, ColumnRef>)
    requires AllNamed(refs)
    ensures d.Valid()
  {
    if refs == [] then Dicts.Empty()
    else
      var n := |refs| - 1;
      Dicts.Put(NameIndex(refs[..n]), refs[n].name.value, refs[n])
  }

  /** It is the dict built from the (name, reference) pairs. */
  lemma {:induction false} NameIndexIsFromPairs(refs: seq<ColumnRef>)
    requires AllNamed(refs)
    ensures NameIndex(refs) == Dicts.FromPairs(RefKeys(refs), refs)
  {
    if refs != [] {
      var n := |refs| - 1;
      NameIndexIsFromPairs(refs[..n]);
      assert RefKeys(refs)[..n] == RefKeys(refs[..n]);
    }
  }

  /** Every reference recorded under a name carries that name and was read. */
  predicate Keyed(d: Dicts.Dict<string, ColumnRef>, refs: seq<ColumnRef>) {
    forall key :: key in d.items ==> d.items[key] in refs && d.items[key].name == Some(key)
  }

  lemma {:induction false} NameIndexKeyed(refs: seq<ColumnRef>)
    requires AllNamed(refs)
    ensures Keyed(NameIndex(refs), refs)
  {
    if refs != [] {
      var n := |refs| - 1;
      NameIndexKeyed(refs[..n]);
      assert refs == refs[..n] + [refs[n]];
    }
  }

  /** The inner loop of `required_columns`: records the references of one
      entry, in order, each under its name. */
  method RecordRefs(d: Dicts.Dict<string, ColumnRef>, ghost done: seq<ColumnRef>, cs: seq<ColumnRef>)
    returns (r: Result<Dicts.Dict<string, ColumnRef>>)
    requires AllNamed(done) && d == NameIndex(done)
    ensures r.Ok? <==> AllNamed(cs)
    ensures r.Err? ==> r.error == MissingName
    ensures r.Ok? ==> AllNamed(done + cs) && r.value == NameIndex(done + cs)
  {
    var acc := d;
    var j := 0;
    assert done + cs[..0] == done;
    while j < |cs|
      invariant 0 <= j <= |cs|
      invariant AllNamed(done + cs[..j]) && AllNamed(cs[..j])
      invariant acc == NameIndex(done + cs[..j])
    {
      var c := cs[j];
      if c.name.None? {
        return Err(MissingName);
      }
      RecordNext(done, cs, j);
      acc := Dicts.Put(acc, c.name.value, c);
      j := j + 1;
    }
    assert cs[..j] == cs;
    r := Ok(acc);
  }

  /** One step of `RecordRefs`'s loop: a named reference extends the index. */
  lemma RecordNext(done: seq<ColumnRef>, cs: seq<ColumnRef>, j: nat)
    requires j < |cs| && AllNamed(done + cs[..j]) && AllNamed(cs[..j]) && cs[j].name.Some?
    ensures AllNamed(done + cs[..j + 1]) && AllNamed(cs[..j + 1])
    ensures NameIndex(done + cs[..j + 1]) == Dicts.Put(NameIndex(done + cs[..j]), cs[j].name.value, cs[j])
  {
    var seen := done + cs[..j];
    assert cs[..j + 1] == cs[..j] + [cs[j]];
    assert done + cs[..j + 1] == seen + [cs[j]];
    assert (seen + [cs[j]])[..|seen|] == seen;
  }

  /** `required_columns()`: the column references all entries read, one per
      name: names in order of first occurrence, each bound to the reference
      read last under it. A reference without a name fails. */
  method RequiredColumnList(l: ExpressionList) returns (r: Result<ExpressionList>)
    ensures r.Ok? <==> AllNamed(AllRefs(l.exprs))
    ensures r.Err? ==> r.error == MissingName
    ensures r.Ok? ==> r.value.WellFormed()
    ensures r.Ok? ==> r.value.names == Dicts.Dedup(RefKeys(AllRefs(l.exprs)))
    ensures r.Ok? ==> r.value.exprs == ColumnsOf(Dicts.FromPairs(RefKeys(AllRefs(l.exprs)), AllRefs(l.exprs)))
    ensures r.Ok? ==> forall k :: 0 <= k < |r.value.exprs| ==>
      r.value.exprs[k].Column? && r.value.exprs[k].ref in AllRefs(l.exprs)
  {
    var es := l.exprs;
    var d: Dicts.Dict<string, ColumnRef> := Dicts.Empty();
    ghost var done: seq<ColumnRef> := [];
    var i := 0;
    while i < |es|
      invariant 0 <= i <= |es|
      invariant done == AllRefs(es[..i])
      invariant AllNamed(done)
      invariant d == NameIndex(done)
    {
      var cs := es[i].RequiredColumns(false);
      assert AllRefs(es[..i + 1]) == done + cs by {
        assert es[..i + 1][..i] == es[..i];
      }
      var step := RecordRefs(d, done, cs);
      if step.Err? {
        UnnamedRefSeen(es, i, done, cs);
        return Err(MissingName);
      }
      d := step.value;
      done := done + cs;
      i := i + 1;
    }
    assert es[..i] == es;
    IndexedColumns(done);
    r := Make(ColumnsOf(d));
  }

  /** The columns of the name index of named references: one per name, in
      order of first occurrence, each a bare reference read under it. */
  lemma IndexedColumns(refs: seq<ColumnRef>)
    requires AllNamed(refs)
    ensures var cols := ColumnsOf(NameIndex(refs));
      && NameIndex(refs) == Dicts.FromPairs(RefKeys(refs), refs)
      && DisplayNames(cols) == Dicts.Dedup(RefKeys(refs)) && Distinct(DisplayNames(cols))
      && forall k :: 0 <= k < |cols| ==> cols[k].Column? && cols[k].ref in refs
  {
    NameIndexIsFromPairs(refs);
    NameIndexKeyed(refs);
    KeyedColumns(NameIndex(refs), refs);
  }

  /** A nameless reference read by entry `i` is among all references read. */
  lemma UnnamedRefSeen(es: seq<Expression>, i: nat, done: seq<ColumnRef>, cs: seq<ColumnRef>)
    requires i < |es| && done == AllRefs(es[..i]) && cs == es[i].RequiredColumns(false)
    requires AllRefs(es[..i + 1]) == done + cs
    requires !AllNamed(cs)
    ensures !AllNamed(AllRefs(es))
  {
    var j :| 0 <= j < |cs| && cs[j].name.None?;
    AllRefsPrefix(es, i + 1);
    assert AllRefs(es)[|done| + j] == cs[j];
  }

  /** The bare columns of a name-to-reference dict are listed under the dict's
      names and each holds a reference that was read. */
  lemma KeyedColumns(d: Dicts.Dict<string, ColumnRef>, refs: seq<ColumnRef>)
    requires d.Valid() && Keyed(d, refs)
    ensures DisplayNames(ColumnsOf(d)) == d.keys && Distinct(d.keys)
    ensures forall k :: 0 <= k < |ColumnsOf(d)| ==> ColumnsOf(d)[k].Column? && ColumnsOf(d)[k].ref in refs
  {
    var cols := ColumnsOf(d);
    forall k | 0 <= k < |d.keys| ensures DisplayNames(cols)[k] == d.keys[k] && d.keys[k] in d.items {
      assert d.keys[k] in Elements(d.keys);
    }
  }

  /** One column reference as `resolve` treats it: a bound reference is left
      alone; an unbound one must carry a name that the input schema lists, and
      is then bound to the first entry listed under it and takes its identity. */
  function BindRef(c: ColumnRef, schema: ExpressionList): (r: Result<ColumnRef>)
    requires schema.Aligned()
    ensures c.resolved ==> r == Ok(c)
    ensures r.Ok? ==> r.value.name == c.name && r.value.resolved
    ensures r.Err? <==> !c.resolved && (c.name.None? || c.name.value !in schema.names)
    ensures r.Err? ==> r.error == (if c.name.None? then MissingName else UnresolvedColumn(c.name.value))
    ensures r.Ok? && !c.resolved ==> c.name.Some? && r.value.id == GetExpressionByName(schema, c.name.value).value.Id()
  {
    if c.resolved then Ok(c)
    else if c.name.None? then Err(MissingName)
    else
      match GetExpressionByName(schema, c.name.value)
      case None => Err(UnresolvedColumn(c.name.value))
      case Some(m) => Ok(ColumnRef(c.name, true, m.Id()))
  }

  /** The references of one expression, bound in order; the first failure wins. */
  function BindRefs(refs: seq<ColumnRef>, schema: ExpressionList): (r: Result<seq<ColumnRef>>)
    requires schema.Aligned()
    ensures r.Ok? <==> forall k :: 0 <= k < |refs| ==> BindRef(refs[k], schema).Ok?
    ensures r.Ok? ==> |r.value| == |refs| && forall k :: 0 <= k < |refs| ==> r.value[k] == BindRef(refs[k], schema).value
    ensures r.Err? ==> exists k :: 0 <= k < |refs| && BindRef(refs[k], schema) == Err(r.error)
                                   && forall m :: 0 <= m < k ==> BindRef(refs[m], schema).Ok?
  {
    if refs == [] then Ok([])
    else
      assert forall k :: 1 <= k < |refs| ==> refs[k] == refs[1..][k - 1];
      match BindRef(refs[0], schema)
      case Err(e) => Err(e)
      case Ok(c) =>
        match BindRefs(refs[1..], schema)
        case Err(e) =>
          FirstFailureShift(refs, schema, e);
          Err(e)
        case Ok(cs) => Ok([c] + cs)
  }

  /** A first failing reference after a bound first one is the first failing
      reference of the whole sequence. */
  lemma FirstFailureShift(refs: seq<ColumnRef>, schema: ExpressionList, e: Error)
    requires schema.Aligned() && refs != [] && BindRef(refs[0], schema).Ok?
    requires exists k :: 0 <= k < |refs[1..]| && BindRef(refs[1..][k], schema) == Err(e)
                         && forall m :: 0 <= m < k ==> BindRef(refs[1..][m], schema).Ok?
    ensures exists k :: 0 <= k < |refs| && BindRef(refs[k], schema) == Err(e)
                        && forall m :: 0 <= m < k ==> BindRef(refs[m], schema).Ok?
  {
    var k :| 0 <= k < |refs[1..]| && BindRef(refs[1..][k], schema) == Err(e)
             && forall m :: 0 <= m < k ==> BindRef(refs[1..][m], schema).Ok?;
    assert BindRef(refs[k + 1], schema) == Err(e);
    forall m | 0 <= m < k + 1 ensures BindRef(refs[m], schema).Ok? {
      if m > 0 {
        assert refs[m] == refs[1..][m - 1];
      }
    }
  }

  /** The expression with all its references bound against `schema`. */
  function Bind(e: Expression, schema: ExpressionList): (r: Result<Expression>)
    requires schema.Aligned()
    ensures r.Ok? <==> forall k :: 0 <= k < |e.RequiredColumns(false)| ==> BindRef(e.RequiredColumns(false)[k], schema).Ok?
    ensures r.Err? ==> r.error == MissingName || r.error.UnresolvedColumn?
    ensures r.Ok? ==> r.value.Name() == e.Name() && r.value.IsEq(e) && r.value.Column? == e.Column? && r.value.HasCall() == e.HasCall()
    ensures r.Ok? ==> forall c :: c in r.value.RequiredColumns(false) ==> c.resolved
    ensures r.Ok? && e.Computed? ==> r.value.Id() == e.Id()
    ensures r.Ok? && e.Column? ==> BindRef(e.ref, schema).Ok? && r.value == Column(BindRef(e.ref, schema).value)
    ensures (forall c :: c in e.RequiredColumns(false) ==> c.resolved) ==> r == Ok(e)
  {
    match e
    case Column(c) =>
      assert e.RequiredColumns(false) == [c] && [c][0] == c;
      BindColumn(c, schema)
    case Computed(n, id, h, o, refs) =>
      assert e.RequiredColumns(false) == refs;
      BindComputed(n, id, h, o, refs, schema)
  }

  /** `Bind` on a bare column reference. */
  function BindColumn(c: ColumnRef, schema: ExpressionList): (r: Result<Expression>)
    requires schema.Aligned()
    ensures r.Ok? <==> BindRef(c, schema).Ok?
    ensures r.Err? ==> r.error == MissingName || r.error.UnresolvedColumn?
    ensures r.Ok? ==> r.value == Column(BindRef(c, schema).value) && r.value.IsEq(Column(c))
    ensures r.Ok? ==> forall x :: x in r.value.RequiredColumns(false) ==> x.resolved
    ensures c.resolved ==> r == Ok(Column(c))
  {
    match BindRef(c, schema)
    case Err(err) => Err(err)
    case Ok(b) => Ok(Column(b))
  }

  /** `Bind` on a computed expression: every reference it reads is bound. */
  function BindComputed(n: Option<string>, id: Option<ColID>, h: bool, o: string, refs: seq<ColumnRef>,
                        schema: ExpressionList): (r: Result<Expression>)
    requires schema.Aligned()
    ensures r.Ok? <==> forall k :: 0 <= k < |refs| ==> BindRef(refs[k], schema).Ok?
    ensures r.Err? ==> r.error == MissingName || r.error.UnresolvedColumn?
    ensures r.Ok? ==> r.value.Computed? && r.value.Name() == n && r.value.Id() == id && r.value.HasCall() == h
    ensures r.Ok? ==> r.value.IsEq(Computed(n, id, h, o, refs))
    ensures r.Ok? ==> forall x :: x in r.value.RequiredColumns(false) ==> x.resolved
    ensures (forall x :: x in refs ==> x.resolved) ==> r == Ok(Computed(n, id, h, o, refs))
  {
    var bs :- BindRefs(refs, schema);
    assert RefNames(bs) == RefNames(refs);
    assert (forall x :: x in refs ==> x.resolved) ==> bs == refs;
    Ok(Computed(n, id, h, o, bs))
  }

  function BindAll(es: seq<Expression>, schema: ExpressionList): (r: seq<Expression>)
    requires schema.Aligned()
    requires forall k :: 0 <= k < |es| ==> Bind(es[k], schema).Ok?
    ensures |r| == |es| && forall k :: 0 <= k < |es| ==> r[k] == Bind(es[k], schema).value
  {
    seq(|es|, k requires 0 <= k < |es| => Bind(es[k], schema).value)
  }

  /** `out` is `pre` with identities assigned where `pre` has none: fresh ones
      drawn from `lo..hi`, no two alike; entries that had one are unchanged. */
  predicate AssignedFrom(pre: seq<Expression>, out: seq<Expression>, lo: ColID, hi: ColID) {
    && |out| == |pre| && lo <= hi
    && (forall k :: 0 <= k < |pre| && pre[k].Id().Some? ==> out[k] == pre[k])
    && (forall k :: 0 <= k < |pre| && pre[k].Id().None? ==>
          out[k].Id().Some? && out[k] == pre[k].WithId(out[k].Id().value) && lo <= out[k].Id().value < hi)
    && (forall k1, k2 :: 0 <= k1 < k2 < |pre| && pre[k1].Id().None? && pre[k2].Id().None? ==> out[k1].Id() != out[k2].Id())
  }

  /** `for e in self.exprs: e._assign_id(strict=False)`: identities come from
      a counter, starting at `next`; an entry that has one keeps it. */
  method AssignIds(es: seq<Expression>, next: ColID) returns (out: seq<Expression>, next': ColID)
    ensures AssignedFrom(es, out, next, next')
    ensures forall k :: 0 <= k < |out| ==> out[k].Id().Some?
    ensures (forall k :: 0 <= k < |es| ==> es[k].Id().Some?) ==> out == es && next' == next
  {
    out := es;
    next' := next;
    var i := 0;
    while i < |es|
      invariant 0 <= i <= |es| && AssigningFrom(es, out, next, next', i)
    {
      AssignStep(es, out, next, next', i);
      if out[i].Id().None? {
        out := out[i := out[i].WithId(next')];
        next' := next' + 1;
      }
      i := i + 1;
    }
    AssignDone(es, out, next, next');
  }

  /** The state of `AssignIds` after its `i` first entries: those are assigned
      from `lo..hi`, the rest are untouched, and no identity was drawn unless
      some entry lacked one. */
  ghost predicate AssigningFrom(es: seq<Expression>, out: seq<Expression>, lo: ColID, hi: ColID, i: nat) {
    && i <= |es| && |out| == |es| && lo <= hi
    && (forall k :: i <= k < |es| ==> out[k] == es[k])
    && (forall k :: 0 <= k < i && es[k].Id().Some? ==> out[k] == es[k])
    && (forall k :: 0 <= k < i && es[k].Id().None? ==>
          out[k].Id().Some? && out[k] == es[k].WithId(out[k].Id().value) && lo <= out[k].Id().value < hi)
    && (forall k1, k2 :: 0 <= k1 < k2 < i && es[k1].Id().None? && es[k2].Id().None? ==> out[k1].Id() != out[k2].Id())
    && ((forall k :: 0 <= k < i ==> es[k].Id().Some?) ==> hi == lo)
  }

  /** One entry more: an entry without an identity takes `hi`, which moves on. */
  lemma AssignStep(es: seq<Expression>, out: seq<Expression>, lo: ColID, hi: ColID, i: nat)
    requires AssigningFrom(es, out, lo, hi, i) && i < |es|
    ensures out[i] == es[i]
    ensures out[i].Id().None? ==> AssigningFrom(es, out[i := out[i].WithId(hi)], lo, hi + 1, i + 1)
    ensures out[i].Id().Some? ==> AssigningFrom(es, out, lo, hi, i + 1)
  {
    if out[i].Id().None? {
      AssignFresh(es, out, lo, hi, i);
    }
  }

  lemma AssignFresh(es: seq<Expression>, out: seq<Expression>, lo: ColID, hi: ColID, i: nat)
    requires AssigningFrom(es, out, lo, hi, i) && i < |es| && es[i].Id().None?
    ensures AssigningFrom(es, out[i := es[i].WithId(hi)], lo, hi + 1, i + 1)
  {
    var out' := out[i := es[i].WithId(hi)];
    assert forall k :: 0 <= k < i && es[k].Id().None? ==> out'[k].Id().value < hi;
    assert out'[i].Id() == Some(hi);
  }

  /** After the last entry, the state is the promised assignment. */
  lemma AssignDone(es: seq<Expression>, out: seq<Expression>, lo: ColID, hi: ColID)
    requires AssigningFrom(es, out, lo, hi, |es|)
    ensures AssignedFrom(es, out, lo, hi)
    ensures forall k :: 0 <= k < |out| ==> out[k].Id().Some?
    ensures (forall k :: 0 <= k < |es| ==> es[k].Id().Some?) ==> out == es && hi == lo
  {
    assert (forall k :: 0 <= k < |es| ==> es[k].Id().Some?) ==> out == es;
  }

  /** The outcome of a successful `resolve`: the list and the next free identity. */
  datatype Resolution = Resolution(list: ExpressionList, nextId: ColID)

  /** Every entry has an identity and reads only bound references. */
  predicate Resolved(l: ExpressionList) {
    forall k :: 0 <= k < |l.exprs| ==>
      l.exprs[k].Id().Some? && forall c :: c in l.exprs[k].RequiredColumns(false) ==> c.resolved
  }

  /** What assigning identities keeps: every entry has one afterwards, is
      structurally equal to what it was, keeps its name, and reads the same
      references with the same bindings. */
  lemma AssignedFromKeeps(pre: seq<Expression>, out: seq<Expression>, lo: ColID, hi: ColID)
    requires AssignedFrom(pre, out, lo, hi)
    requires forall k :: 0 <= k < |out| ==> out[k].Id().Some?
    ensures forall k :: 0 <= k < |pre| ==> out[k].IsEq(pre[k]) && out[k].Name() == pre[k].Name()
    ensures (forall k :: 0 <= k < |pre| ==> forall c :: c in pre[k].RequiredColumns(false) ==> c.resolved)
            ==> forall k :: 0 <= k < |out| ==> forall c :: c in out[k].RequiredColumns(false) ==> c.resolved
  {
    forall k | 0 <= k < |pre| && pre[k].Id().None?
      ensures (forall c :: c in pre[k].RequiredColumns(false) ==> c.resolved)
              ==> (forall c :: c in out[k].RequiredColumns(false) ==> c.resolved)
    {
      WithIdKeeps(pre[k], out[k].Id().value);
      var rs, rs' := pre[k].RequiredColumns(false), out[k].RequiredColumns(false);
      forall c | c in rs' ensures (forall c :: c in rs ==> c.resolved) ==> c.resolved {
        var m :| 0 <= m < |rs'| && rs'[m] == c;
        assert rs[m] in rs;
      }
    }
  }

  /** The second branch of `resolve`: bind every entry in order, then check
      that its type can be resolved; the first failure wins. */
  method BindEach(es: seq<Expression>, s: ExpressionList, typeChecks: Expression -> bool) returns (r: Result<seq<Expression>>)
    requires s.Aligned()
    ensures r.Ok? <==> forall k :: 0 <= k < |es| ==> Bind(es[k], s).Ok? && typeChecks(Bind(es[k], s).value)
    ensures r.Err? ==> r.error == MissingName || r.error.UnresolvedColumn? || r.error == TypeResolution
    ensures r.Ok? ==> r.value == BindAll(es, s)
  {
    var bound: seq<Expression> := [];
    var i := 0;
    while i < |es|
      invariant 0 <= i <= |es| && |bound| == i
      invariant forall k :: 0 <= k < i ==>
        Bind(es[k], s).Ok? && typeChecks(Bind(es[k], s).value) && bound[k] == Bind(es[k], s).value
    {
      var b := Bind(es[i], s);
      if b.Err? {
        return Err(b.error);
      }
      if !typeChecks(b.value) {
        return Err(TypeResolution);
      }
      BoundNext(es, s, typeChecks, bound, i);
      bound := bound + [b.value];
      i := i + 1;
    }
    r := Ok(bound);
  }

  /** One step of `BindEach`'s loop: binding entry `i` extends the prefix. */
  lemma BoundNext(es: seq<Expression>, s: ExpressionList, typeChecks: Expression -> bool, bound: seq<Expression>, i: nat)
    requires s.Aligned() && i < |es| && |bound| == i
    requires forall k :: 0 <= k < i ==>
      Bind(es[k], s).Ok? && typeChecks(Bind(es[k], s).value) && bound[k] == Bind(es[k], s).value
    requires Bind(es[i], s).Ok? && typeChecks(Bind(es[i], s).value)
    ensures forall k :: 0 <= k < i + 1 ==>
      Bind(es[k], s).Ok? && typeChecks(Bind(es[k], s).value) && (bound + [Bind(es[i], s).value])[k] == Bind(es[k], s).value
  {
  }

  /** The first branch of `resolve`: the assertion that every entry is a bare
      column reference. */
  method AllColumns(es: seq<Expression>) returns (ok: bool)
    ensures ok <==> forall k :: 0 <= k < |es| ==> es[k].Column?
  {
    var i := 0;
    while i < |es|
      invariant 0 <= i <= |es|
      invariant forall k :: 0 <= k < i ==> es[k].Column?
    {
      if !es[i].Column? {
        return false;
      }
      i := i + 1;
    }
    return true;
  }

  /** `resolve(input_schema)`. Without a schema only bare column references
      are accepted; with one every unbound reference is bound by name against
      it and every entry must pass `typeChecks`. Then every entry without an
      identity receives a fresh one, counting from `next`. The names stay as
      they are. */
  method Resolve(l: ExpressionList, schema: Option<ExpressionList>, typeChecks: Expression -> bool, next: ColID)
    returns (r: Result<Resolution>)
    requires schema.Some? ==> schema.value.Aligned()
    ensures schema.None? ==> (r.Ok? <==> forall k :: 0 <= k < |l.exprs| ==> l.exprs[k].Column?)
    ensures schema.None? && r.Err? ==> r.error == NotColumnExpression
    ensures schema.None? && r.Ok? ==> AssignedFrom(l.exprs, r.value.list.exprs, next, r.value.nextId)
    ensures schema.Some? ==>
      (r.Ok? <==> forall k :: 0 <= k < |l.exprs| ==> Bind(l.exprs[k], schema.value).Ok? && typeChecks(Bind(l.exprs[k], schema.value).value))
    ensures schema.Some? && r.Err? ==> r.error == MissingName || r.error.UnresolvedColumn? || r.error == TypeResolution
    ensures schema.Some? && r.Ok? ==> AssignedFrom(BindAll(l.exprs, schema.value), r.value.list.exprs, next, r.value.nextId)
    ensures schema.Some? && r.Ok? ==> Resolved(r.value.list)
    ensures r.Ok? ==> r.value.list.names == l.names && |r.value.list.exprs| == |l.exprs|
    ensures r.Ok? ==> forall k :: 0 <= k < |l.exprs| ==>
      r.value.list.exprs[k].Id().Some? && r.value.list.exprs[k].IsEq(l.exprs[k]) && r.value.list.exprs[k].Name() == l.exprs[k].Name()
    ensures Resolved(l) && (schema.None? ==> forall k :: 0 <= k < |l.exprs| ==> l.exprs[k].Column?)
                        && (schema.Some? ==> forall k :: 0 <= k < |l.exprs| ==> typeChecks(l.exprs[k]))
            ==> r == Ok(Resolution(l, next))
  {
    if schema.None? {
      r := ResolveColumns(l, next);
    } else {
      r := ResolveBound(l, schema.value, typeChecks, next);
    }
  }

  /** `resolve()` without a schema: every entry must be a bare column
      reference, and each without an identity receives a fresh one. */
  method ResolveColumns(l: ExpressionList, next: ColID) returns (r: Result<Resolution>)
    ensures r.Ok? <==> forall k :: 0 <= k < |l.exprs| ==> l.exprs[k].Column?
    ensures r.Err? ==> r.error == NotColumnExpression
    ensures r.Ok? ==> AssignedFrom(l.exprs, r.value.list.exprs, next, r.value.nextId)
    ensures r.Ok? ==> r.value.list.names == l.names && |r.value.list.exprs| == |l.exprs|
    ensures r.Ok? ==> forall k :: 0 <= k < |l.exprs| ==>
      r.value.list.exprs[k].Id().Some? && r.value.list.exprs[k].IsEq(l.exprs[k]) && r.value.list.exprs[k].Name() == l.exprs[k].Name()
    ensures Resolved(l) && (forall k :: 0 <= k < |l.exprs| ==> l.exprs[k].Column?) ==> r == Ok(Resolution(l, next))
  {
    var ok := AllColumns(l.exprs);
    if !ok {
      return Err(NotColumnExpression);
    }
    var es, cur := AssignIds(l.exprs, next);
    AssignedFromKeeps(l.exprs, es, next, cur);
    var out, last := AssignIds(es, cur);
    r := Ok(Resolution(ExpressionList(out, l.names), last));
  }

  /** `resolve(input_schema)`: every unbound reference is bound by name
      against the schema, every entry must pass `typeChecks`, and each entry
      without an identity receives a fresh one. */
  method ResolveBound(l: ExpressionList, schema: ExpressionList, typeChecks: Expression -> bool, next: ColID)
    returns (r: Result<Resolution>)
    requires schema.Aligned()
    ensures r.Ok? <==> forall k :: 0 <= k < |l.exprs| ==> Bind(l.exprs[k], schema).Ok? && typeChecks(Bind(l.exprs[k], schema).value)
    ensures r.Err? ==> r.error == MissingName || r.error.UnresolvedColumn? || r.error == TypeResolution
    ensures r.Ok? ==> AssignedFrom(BindAll(l.exprs, schema), r.value.list.exprs, next, r.value.nextId)
    ensures r.Ok? ==> Resolved(r.value.list)
    ensures r.Ok? ==> r.value.list.names == l.names && |r.value.list.exprs| == |l.exprs|
    ensures r.Ok? ==> forall k :: 0 <= k < |l.exprs| ==>
      r.value.list.exprs[k].Id().Some? && r.value.list.exprs[k].IsEq(l.exprs[k]) && r.value.list.exprs[k].Name() == l.exprs[k].Name()
    ensures Resolved(l) && (forall k :: 0 <= k < |l.exprs| ==> typeChecks(l.exprs[k])) ==> r == Ok(Resolution(l, next))
  {
    var bound := BindEach(l.exprs, schema, typeChecks);
    if bound.Err? {
      return Err(bound.error);
    }
    assert Resolved(l) ==> bound.value == l.exprs;
    var out, last := AssignIds(bound.value, next);
    AssignedFromKeeps(bound.value, out, next, last);
    r := Ok(Resolution(ExpressionList(out, l.names), last));
  }
}
