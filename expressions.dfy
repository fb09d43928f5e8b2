/** The part of the expression contract the core consumes. An expression is
    either a bare column reference or a computed node; only its name, its
    identity, whether it invokes a function, the column references it reads and
    its structure are visible to the core. */
module Expressions {
  import opened Common

  /** A reference to a column by name. Once resolved it is bound to an
      expression of the input schema and carries that expression's identity. */
  datatype ColumnRef = ColumnRef(name: Option<string>, resolved: bool, id: Option<ColID>)

  /** What structural equality (`is_eq`) compares: everything but identities
      and bindings. */
  datatype Shape =
    | ColumnShape(name: Option<string>)
    | ComputedShape(name: Option<string>, hasCall: bool, op: string, refNames: seq<Option<string>>)

  /** The references among `refs` that are not yet bound, in order. */
  function Unbound(refs: seq<ColumnRef>): (r: seq<ColumnRef>)
    ensures forall c :: c in r ==> c in refs && !c.resolved
    ensures forall c :: c in refs && !c.resolved ==> c in r
  {
    if refs == [] then []
    else
      var last := refs[|refs| - 1];
      var p := Unbound(refs[..|refs| - 1]);
      assert refs == refs[..|refs| - 1] + [last];
      if last.resolved then p else p + [last]
  }

  function RefNames(refs: seq<ColumnRef>): (r: seq<Option<string>>)
    ensures |r| == |refs| && forall k :: 0 <= k < |refs| ==> r[k] == refs[k].name
  {
    seq(|refs|, k requires 0 <= k < |refs| => refs[k].name)
  }

  /** The same reference with its binding forgotten. */
  function ForgetBinding(c: ColumnRef): ColumnRef {
    ColumnRef(c.name, false, None)
  }

  datatype Expression =
    | Column(ref: ColumnRef)
    | Computed(exprName: Option<string>, exprId: Option<ColID>, call: bool, op: string, refs: seq<ColumnRef>)
  {
    /** `name()`. */
    function Name(): Option<string> {
      if Column? then ref.name else exprName
    }

    /** `get_id()`: a column reference has the identity it is bound to. */
    function Id(): Option<ColID> {
      if Column? then ref.id else exprId
    }

    /** `has_call()`: a column reference never calls a function. */
    predicate HasCall() {
      Computed? && call
    }

    /** `required_columns(unresolved_only)`: the column references this
        expression reads; a bare column reference reads itself. */
    function RequiredColumns(unresolvedOnly: bool): (r: seq<ColumnRef>)
      ensures unresolvedOnly ==> forall c :: c in r ==> !c.resolved
      ensures !unresolvedOnly ==> r == (if Column? then [ref] else refs)
    {
      var all := if Column? then [ref] else refs;
      if unresolvedOnly then Unbound(all) else all
    }

    /** `is_same`: both expressions carry the same identity. */
    predicate IsSame(other: Expression) {
      Id().Some? && Id() == other.Id()
    }

    function Shape(): Shape {
      if Column? then ColumnShape(ref.name) else ComputedShape(exprName, call, op, RefNames(refs))
    }

    /** `is_eq`: structural equality. */
    predicate IsEq(other: Expression) {
      Shape() == other.Shape()
    }

    /** `alias(name)`: the same computation, shown under another name. */
    function Alias(name: string): (r: Expression)
      ensures r.Name() == Some(name)
      ensures r.Id() == Id() && r.HasCall() == HasCall()
      ensures r.RequiredColumns(false) == RequiredColumns(false)
    {
      Computed(Some(name), Id(), HasCall(), "alias", RequiredColumns(false))
    }

    /** `to_column_expression()`: a bare reference to this expression's output
        column, bound to it. */
    function ToColumnExpression(): (r: Expression)
      ensures r.Column? && r.ref.resolved && !r.HasCall()
      ensures r.Name() == Name() && r.Id() == Id()
    {
      Column(ColumnRef(Name(), true, Id()))
    }

    /** `_unresolve()`: the expression with every identity and binding dropped. */
    function Unresolved(): (r: Expression)
      ensures r.Name() == Name() && r.Id().None?
      ensures r.Column? == Column? && r.HasCall() == HasCall()
      ensures forall c :: c in r.RequiredColumns(false) ==> !c.resolved
      ensures r.IsEq(this)
    {
      match this
      case Column(c) => Column(ForgetBinding(c))
      case Computed(l, _, h, o, rs) =>
        var rs' := seq(|rs|, k requires 0 <= k < |rs| => ForgetBinding(rs[k]));
        assert RefNames(rs') == RefNames(rs);
        Computed(l, None, h, o, rs')
    }

    /** The expression carrying identity `id`; its references keep their names
        and bindings. */
    function WithId(id: ColID): (r: Expression)
      ensures r.Id() == Some(id)
    {
      match this
      case Column(c) => Column(ColumnRef(c.name, c.resolved, Some(id)))
      case Computed(l, _, h, o, rs) => Computed(l, Some(id), h, o, rs)
    }
  }

  /** Giving an expression an identity keeps its name, its kind, its
      structure and the names and bindings of the references it reads. */
  lemma WithIdKeeps(e: Expression, id: ColID)
    ensures e.WithId(id).Name() == e.Name() && e.WithId(id).Column? == e.Column?
    ensures e.WithId(id).HasCall() == e.HasCall()
    ensures e.WithId(id).IsEq(e)
    ensures |e.WithId(id).RequiredColumns(false)| == |e.RequiredColumns(false)|
    ensures forall k :: 0 <= k < |e.RequiredColumns(false)| ==>
      e.WithId(id).RequiredColumns(false)[k].name == e.RequiredColumns(false)[k].name
      && e.WithId(id).RequiredColumns(false)[k].resolved == e.RequiredColumns(false)[k].resolved
  {
  }

  /** Structural equality is an equivalence relation; it holds by the
      definition of `IsEq` and is stated for readers. */
  lemma IsEqEquivalence()
    ensures forall a: Expression :: a.IsEq(a)
    ensures forall a: Expression, b: Expression :: a.IsEq(b) ==> b.IsEq(a)
    ensures forall a: Expression, b: Expression, c: Expression :: a.IsEq(b) && b.IsEq(c) ==> a.IsEq(c)
  {
  }
}
