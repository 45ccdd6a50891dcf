/**
 Collection of specialization arguments from a tree of shader objects. Types are component IDs; what the compiler
 makes of a type and its arguments is a function.
 */
module Specialization {
  import opened Wrappers

  type TypeId = int

  datatype World = World(dynamicType: TypeId, specializeType: (TypeId, seq<TypeId>) -> TypeId)

  datatype BindingType = ExistentialValue | ParameterBlock | ConstantBuffer | OtherBinding

  /**
   A container (an array or structured buffer) carries the arguments of its elements; others have sub-object ranges.
   */
  datatype Object = Object(componentId: TypeId, isContainer: bool, containerArgs: seq<TypeId>, ranges: seq<Range>)

  datatype Range = Range(bindingType: BindingType, isSpecializable: bool, elements: seq<Option<Element>>)

  datatype Element = Element(bound: Object, userArgs: Option<seq<TypeId>>)

  // ---------- The join ----------

  /** The least upper bound in the flat order below the dynamic type. */
  function Join(w: World, a: TypeId, b: TypeId): TypeId {
    if a == b then a else w.dynamicType
  }

  function JoinLists(w: World, a: seq<TypeId>, b: seq<TypeId>): (r: seq<TypeId>)
    requires |a| == |b|
    ensures |r| == |a| && forall i :: 0 <= i < |a| ==> r[i] == Join(w, a[i], b[i])
  {
    seq(|a|, i requires 0 <= i < |a| => Join(w, a[i], b[i]))
  }

  predicate SameLength(lists: seq<seq<TypeId>>) {
    forall i, j :: 0 <= i < |lists| && 0 <= j < |lists| ==> |lists[i]| == |lists[j]|
  }

  function JoinAll(w: World, lists: seq<seq<TypeId>>): (r: seq<TypeId>)
    requires SameLength(lists)
    ensures lists == [] ==> r == []
    ensures forall i :: 0 <= i < |lists| ==> |r| == |lists[i]|
  {
    if lists == [] then []
    else if |lists| == 1 then lists[0]
    else
      var init := lists[..|lists| - 1];
      assert |JoinAll(w, init)| == |init[0]|;
      JoinLists(w, JoinAll(w, init), lists[|lists| - 1])
  }

  /** A position keeps its type if all lists agree on it, and becomes dynamic if any two differ. */
  lemma {:induction false} JoinAllAt(w: World, lists: seq<seq<TypeId>>, k: nat)
    requires SameLength(lists) && lists != [] && k < |lists[0]|
    ensures |JoinAll(w, lists)| == |lists[0]|
    ensures (forall l :: l in lists ==> l[k] == lists[0][k]) ==> JoinAll(w, lists)[k] == lists[0][k]
    ensures (exists l :: l in lists && l[k] != lists[0][k]) ==> JoinAll(w, lists)[k] == w.dynamicType
  {
    if |lists| > 1 {
      var init, last := lists[..|lists| - 1], lists[|lists| - 1];
      assert lists == init + [last] && init[0] == lists[0];
      JoinAllAt(w, init, k);
      if exists l :: l in lists && l[k] != lists[0][k] {
        if exists l :: l in init && l[k] != init[0][k] {
          assert JoinAll(w, init)[k] == w.dynamicType;
        } else {
          assert forall l :: l in init ==> l[k] == init[0][k];
          assert last in lists && last[k] != lists[0][k];
        }
      } else {
        assert forall l :: l in init ==> l in lists;
      }
    } else {
      assert lists == [lists[0]];
    }
  }

  lemma FirstIsMember<T>(s: seq<T>)
    ensures s != [] ==> s[0] in s
  {
  }

  /** The join depends on which lists there are, not on their order or number. */
  lemma JoinOrderless(w: World, a: seq<seq<TypeId>>, b: seq<seq<TypeId>>)
    requires SameLength(a) && SameLength(b) && forall l :: l in a <==> l in b
    ensures JoinAll(w, a) == JoinAll(w, b)
  {
    FirstIsMember(a);
    FirstIsMember(b);
    if a != [] {
      forall k | 0 <= k < |a[0]| ensures JoinAll(w, a)[k] == JoinAll(w, b)[k] {
        JoinAllAt(w, a, k);
        JoinAllAt(w, b, k);
        if l :| l in a && l[k] != a[0][k] {
          if b[0][k] == a[0][k] {
            assert l in b && l[k] != b[0][k];
          } else {
            assert a[0] in b && a[0][k] != b[0][k];
          }
        } else {
          assert b[0][k] == a[0][k];
          assert forall l :: l in b ==> l[k] == b[0][k];
        }
      }
    }
  }

  // ---------- What a tree of objects means ----------

  /** The type of an object given its own arguments. */
  function SpecializedType(w: World, componentId: TypeId, args: seq<TypeId>): TypeId {
    if args == [] then componentId else w.specializeType(componentId, args)
  }

  /** What one bound object contributes, given its own arguments. */
  function Contribution(w: World, bindingType: BindingType, isSpecializable: bool, componentId: TypeId,
                        args: seq<TypeId>): seq<TypeId> {
    match bindingType
    case ExistentialValue => [SpecializedType(w, componentId, args)]
    case OtherBinding => []
    case _ => (if isSpecializable then [SpecializedType(w, componentId, args)] else []) + args
  }

  /** The contribution of one bound object to its range; arguments supplied by the user replace the object's own. */
  datatype Part = Part(args: seq<TypeId>, user: bool)

  /**
   The arguments of a range: contributions join, but those of the user, and the first ones that are not empty, are
   added at the end.
   */
  function Fold(w: World, parts: seq<Part>): seq<TypeId> {
    if parts == [] then []
    else
      var before, p := Fold(w, parts[..|parts| - 1]), parts[|parts| - 1];
      if p.user || before == [] then before + p.args
      else if |before| == |p.args| then JoinLists(w, before, p.args)
      else before
  }

  /** No contribution is joined with another number of arguments: what the original asserts. */
  predicate Compatible(w: World, parts: seq<Part>) {
    forall i :: 0 <= i < |parts| && !parts[i].user && Fold(w, parts[..i]) != [] ==>
      |Fold(w, parts[..i])| == |parts[i].args|
  }

  /** The arguments of an object, range by range. */
  function Args(w: World, o: Object): seq<TypeId>
    decreases o, 0
  {
    if o.isContainer then o.containerArgs else ArgsOfRanges(w, o, |o.ranges|)
  }

  function ArgsOfRanges(w: World, o: Object, n: nat): seq<TypeId>
    requires n <= |o.ranges|
    decreases o, 0, n
  {
    if n == 0 then []
    else ArgsOfRanges(w, o, n - 1) + Fold(w, Parts(w, o.ranges[n - 1], |o.ranges[n - 1].elements|))
  }

  /** The contributions of the objects bound in a range. */
  function Parts(w: World, r: Range, n: nat): seq<Part>
    requires n <= |r.elements|
    decreases r, n
  {
    if n == 0 then []
    else
      var before := Parts(w, r, n - 1);
      match r.elements[n - 1]
      case None => before
      case Some(e) => before + [PartOf(w, r, e, Args(w, e.bound))]
  }

  function PartOf(w: World, r: Range, e: Element, args: seq<TypeId>): Part {
    match e.userArgs
    case Some(user) => Part(user, true)
    case None => Part(Contribution(w, r.bindingType, r.isSpecializable, e.bound.componentId, args), false)
  }

  /**
   An object with one bound object gets the type that this one is specialized to if the binding asks for its type, and
   behind it the arguments of the bound object unless its type stands for them.
   */
  lemma OneBound(w: World, id: TypeId, bindingType: BindingType, isSpecializable: bool, inner: Object)
    ensures var args := Args(w, inner);
      var t := if args == [] then inner.componentId else w.specializeType(inner.componentId, args);
      Args(w, Object(id, false, [], [Range(bindingType, isSpecializable, [Some(Element(inner, None))])]))
      == match bindingType
         case ExistentialValue => [t]
         case ParameterBlock => if isSpecializable then [t] + args else args
         case ConstantBuffer => if isSpecializable then [t] + args else args
         case OtherBinding => []
  {
    var r := Range(bindingType, isSpecializable, [Some(Element(inner, None))]);
    var o := Object(id, false, [], [r]);
    var part := PartOf(w, r, Element(inner, None), Args(w, inner));
    assert Parts(w, r, 0) == [] && Parts(w, r, 1) == [part];
    assert [part][..0] == [] && Fold(w, [part]) == [] + part.args == part.args;
    assert ArgsOfRanges(w, o, 0) == [] && Args(w, o) == [] + part.args;
    assert [] + Args(w, inner) == Args(w, inner);
  }

  /** The ranges of an object contribute one after the other, and a container has no ranges to collect from. */
  lemma RangesInOrder(w: World, o: Object, r: Range)
    ensures o.isContainer ==> Args(w, o) == o.containerArgs
    ensures !o.isContainer ==>
      Args(w, o.(ranges := o.ranges + [r])) == Args(w, o) + Fold(w, Parts(w, r, |r.elements|))
  {
    if !o.isContainer {
      SameRanges(w, o, r, |o.ranges|);
    }
  }

  lemma {:induction false} SameRanges(w: World, o: Object, r: Range, n: nat)
    requires n <= |o.ranges|
    ensures ArgsOfRanges(w, o.(ranges := o.ranges + [r]), n) == ArgsOfRanges(w, o, n)
  {
    if n > 0 {
      SameRanges(w, o, r, n - 1);
      assert (o.ranges + [r])[n - 1] == o.ranges[n - 1];
    }
  }

  predicate Regular(w: World, o: Object)
    decreases o
  {
    forall i :: 0 <= i < |o.ranges| ==>
      Compatible(w, Parts(w, o.ranges[i], |o.ranges[i].elements|))
      && forall j :: 0 <= j < |o.ranges[i].elements| && o.ranges[i].elements[j].Some? ==>
         Regular(w, o.ranges[i].elements[j].value.bound)
  }

  // ---------- When the arguments of a range are the join ----------

  function Lists(parts: seq<Part>): (lists: seq<seq<TypeId>>)
    ensures |lists| == |parts| && forall i :: 0 <= i < |parts| ==> lists[i] == parts[i].args
  {
    seq(|parts|, i requires 0 <= i < |parts| => parts[i].args)
  }

  /** Among contributions with n arguments each, the user's arguments count only as the first. */
  predicate UserOnlyFirst(parts: seq<Part>) {
    forall i :: 0 < i < |parts| ==> !parts[i].user
  }

  lemma {:induction false} FoldJoins(w: World, parts: seq<Part>, n: nat)
    requires forall i :: 0 <= i < |parts| ==> |parts[i].args| == n
    requires UserOnlyFirst(parts)
    ensures Fold(w, parts) == JoinAll(w, Lists(parts))
    ensures parts != [] ==> |Fold(w, parts)| == n
  {
    if |parts| > 1 {
      var init := parts[..|parts| - 1];
      FoldJoins(w, init, n);
      assert Lists(parts)[..|parts| - 1] == Lists(init);
      if n == 0 {
        assert Fold(w, parts) == [];
      }
    } else if |parts| == 1 {
      assert parts[..0] == [] && [] + parts[0].args == parts[0].args;
    }
  }

  /** Without arguments there is nothing to join. */
  lemma {:induction false} FoldEmpty(w: World, parts: seq<Part>)
    requires forall i :: 0 <= i < |parts| ==> parts[i].args == []
    ensures Fold(w, parts) == []
  {
    if parts != [] {
      FoldEmpty(w, parts[..|parts| - 1]);
    }
  }

  /** The user's arguments for a later element make the range's arguments too many. */
  lemma {:induction false} FoldGrows(w: World, parts: seq<Part>, n: nat)
    requires n > 0 && forall i :: 0 <= i < |parts| ==> |parts[i].args| == n
    ensures parts != [] ==> |Fold(w, parts)| >= n
    ensures !UserOnlyFirst(parts) ==> |Fold(w, parts)| >= 2 * n
  {
    if parts != [] {
      var init := parts[..|parts| - 1];
      FoldGrows(w, init, n);
      if !UserOnlyFirst(parts) && UserOnlyFirst(init) {
        assert parts[|parts| - 1].user && init != [];
      }
    }
  }

  /**
   For contributions of equal length a range's arguments are their join, whatever their order, exactly if the user
   supplies none for an element after the first, or there are no arguments at all.
   */
  lemma FoldIsJoin(w: World, parts: seq<Part>)
    requires SameLength(Lists(parts))
    ensures Fold(w, parts) == JoinAll(w, Lists(parts)) <==> UserOnlyFirst(parts) || parts[0].args == []
  {
    if parts != [] {
      var n := |parts[0].args|;
      assert forall i :: 0 <= i < |parts| ==> |Lists(parts)[i]| == |Lists(parts)[0]| == n;
      if UserOnlyFirst(parts) {
        FoldJoins(w, parts, n);
      } else if n > 0 {
        FoldGrows(w, parts, n);
        assert |JoinAll(w, Lists(parts))| == |Lists(parts)[0]|;
      } else {
        FoldEmpty(w, parts);
        assert |JoinAll(w, Lists(parts))| == |Lists(parts)[0]|;
      }
    }
  }

  lemma UserPartsTwice(w: World, t: TypeId)
    ensures var parts := [Part([t], true), Part([t], true)];
      Fold(w, parts) == [t, t] && JoinAll(w, Lists(parts)) == [t]
  {
    var parts := [Part([t], true), Part([t], true)];
    assert parts[..1] == [parts[0]] && parts[..1][..0] == [];
    assert Fold(w, parts[..1]) == [] + [t] == [t];
    assert Lists(parts) == [[t], [t]] && [[t], [t]][..1] == [[t]];
    assert JoinLists(w, [t], [t]) == [t];
  }

  /** Reordering or repeating the elements of a range without the user's arguments changes nothing. */
  lemma RangeOrderless(w: World, a: seq<Part>, b: seq<Part>)
    requires SameLength(Lists(a)) && SameLength(Lists(b)) && UserOnlyFirst(a) && UserOnlyFirst(b)
    requires forall l :: l in Lists(a) <==> l in Lists(b)
    ensures Fold(w, a) == Fold(w, b)
  {
    FoldIsJoin(w, a);
    FoldIsJoin(w, b);
    JoinOrderless(w, Lists(a), Lists(b));
  }

  // ---------- The collecting methods ----------

  /** The dynamic type wherever two lists differ, written over the first. */
  method JoinInto(w: World, args: seq<TypeId>, from: nat, typeArgs: seq<TypeId>) returns (args': seq<TypeId>)
    requires from + |typeArgs| == |args|
    ensures args' == args[..from] + JoinLists(w, args[from..], typeArgs)
  {
    args' := args;
    for i := 0 to |typeArgs|
      invariant |args'| == |args| && args'[..from] == args[..from]
      invariant forall k :: 0 <= k < i ==> args'[from + k] == Join(w, args[from + k], typeArgs[k])
      invariant forall k :: from + i <= k < |args| ==> args'[k] == args[k]
    {
      if args'[i + from] != typeArgs[i] {
        args' := args'[i + from := w.dynamicType];
      }
    }
    assert args'[from..] == JoinLists(w, args[from..], typeArgs);
    assert args' == args'[..from] + args'[from..];
  }

  /** collectSpecializationArgs: appends the object's arguments. */
  method CollectSpecializationArgs(w: World, o: Object, args: seq<TypeId>) returns (args': seq<TypeId>)
    requires Regular(w, o)
    ensures args' == args + Args(w, o)
    decreases o, 0
  {
    hide Fold, Parts, Compatible, Contribution, JoinLists;
    if o.isContainer {
      return args + o.containerArgs;
    }
    args' := args;
    for i := 0 to |o.ranges|
      invariant args' == args + ArgsOfRanges(w, o, i)
    {
      var range := o.ranges[i];
      var oldArgsCount := |args'|;
      ghost var before := args';
      NoParts(w, range);
      for j := 0 to |range.elements|
        invariant oldArgsCount == |before| && args' == before + Fold(w, Parts(w, range, j))
      {
        match range.elements[j] {
          case None =>
            PartsSkip(w, range, j);
          case Some(e) =>
            PartsStep(w, range, j, e);
            FoldSnoc(w, Parts(w, range, j), PartOf(w, range, e, Args(w, e.bound)));
            match e.userArgs {
              case Some(user) =>
                args' := args' + user;
              case None =>
                var typeArgs := ContributionOf(w, range, e);
                var added := |args'| - oldArgsCount;
                if added == 0 {
                  args' := args' + typeArgs;
                } else {
                  CompatibleAt(w, range, j);
                  assert args'[..oldArgsCount] == before && args'[oldArgsCount..] == Fold(w, Parts(w, range, j));
                  args' := JoinInto(w, args', oldArgsCount, typeArgs);
                }
            }
        }
      }
    }
  }

  /** One argument that the user supplies for both elements of an array is collected twice, and not joined. */
  method UserArgsTwice(w: World, t: TypeId) returns (args: seq<TypeId>)
    ensures args == [t, t] && JoinAll(w, [[t], [t]]) == [t]
  {
    hide Fold, JoinAll, Parts;
    var element := Some(Element(Object(0, false, [], []), Some([t])));
    var range := Range(ExistentialValue, true, [element, element]);
    var o := Object(0, false, [], [range]);
    UserPartsTwice(w, t);
    assert Lists([Part([t], true), Part([t], true)]) == [[t], [t]];
    NoParts(w, range);
    PartsStep(w, range, 0, element.value);
    PartsStep(w, range, 1, element.value);
    assert Parts(w, range, 2) == [Part([t], true), Part([t], true)];
    assert ArgsOfRanges(w, o, 0) == [] && Args(w, o) == [] + [t, t];
    args := CollectSpecializationArgs(w, o, []);
  }

  lemma NoParts(w: World, r: Range)
    ensures Parts(w, r, 0) == [] && Fold(w, []) == []
  {
  }

  lemma PartsSkip(w: World, r: Range, j: nat)
    requires j < |r.elements| && r.elements[j].None?
    ensures Parts(w, r, j + 1) == Parts(w, r, j)
  {
  }

  lemma FoldSnoc(w: World, parts: seq<Part>, p: Part)
    ensures var before := Fold(w, parts);
      Fold(w, parts + [p]) == if p.user || before == [] then before + p.args
                              else if |before| == |p.args| then JoinLists(w, before, p.args) else before
  {
    assert (parts + [p])[..|parts|] == parts;
  }

  /** The switch over the binding type. */
  method ContributionOf(w: World, range: Range, e: Element) returns (typeArgs: seq<TypeId>)
    requires Regular(w, e.bound)
    ensures typeArgs == Contribution(w, range.bindingType, range.isSpecializable, e.bound.componentId, Args(w, e.bound))
    decreases e.bound, 2
  {
    typeArgs := [];
    match range.bindingType {
      case ExistentialValue =>
        var specialized := GetSpecializedShaderObjectType(w, e.bound);
        typeArgs := [specialized];
      case OtherBinding =>
      case _ =>
        if range.isSpecializable {
          var specialized := GetSpecializedShaderObjectType(w, e.bound);
          typeArgs := [specialized];
        }
        typeArgs := CollectSpecializationArgs(w, e.bound, typeArgs);
    }
  }

  /** getSpecializedShaderObjectType. */
  method GetSpecializedShaderObjectType(w: World, o: Object) returns (typeId: TypeId)
    requires Regular(w, o)
    ensures typeId == SpecializedType(w, o.componentId, Args(w, o))
    decreases o, 1
  {
    var specializationArgs := CollectSpecializationArgs(w, o, []);
    assert [] + Args(w, o) == Args(w, o);
    if |specializationArgs| == 0 {
      return o.componentId;
    }
    typeId := w.specializeType(o.componentId, specializationArgs);
  }

  lemma PartsStep(w: World, r: Range, j: nat, e: Element)
    requires j < |r.elements| && r.elements[j] == Some(e)
    ensures Parts(w, r, j + 1) == Parts(w, r, j) + [PartOf(w, r, e, Args(w, e.bound))]
    ensures Parts(w, r, j + 1)[..|Parts(w, r, j)|] == Parts(w, r, j)
  {
  }

  lemma {:induction false} PartsPrefix(w: World, r: Range, j: nat, n: nat)
    requires j <= n <= |r.elements|
    ensures |Parts(w, r, j)| <= |Parts(w, r, n)| && Parts(w, r, j) == Parts(w, r, n)[..|Parts(w, r, j)|]
    decreases n
  {
    if j < n {
      PartsPrefix(w, r, j, n - 1);
    }
  }

  lemma CompatibleAt(w: World, r: Range, j: nat)
    requires j < |r.elements| && r.elements[j].Some? && r.elements[j].value.userArgs.None?
    requires Compatible(w, Parts(w, r, |r.elements|)) && Fold(w, Parts(w, r, j)) != []
    ensures var e := r.elements[j].value;
      |Fold(w, Parts(w, r, j))|
      == |Contribution(w, r.bindingType, r.isSpecializable, e.bound.componentId, Args(w, e.bound))|
  {
    hide Fold, Parts, Contribution, Args;
    var e := r.elements[j].value;
    PartsStep(w, r, j, e);
    PartsPrefix(w, r, j + 1, |r.elements|);
    PartsPrefix(w, r, j, |r.elements|);
    var all, k := Parts(w, r, |r.elements|), |Parts(w, r, j)|;
    assert all[k] == PartOf(w, r, e, Args(w, e.bound)) && all[..k] == Parts(w, r, j);
  }

  // ---------- Containers ----------

  /** The lists that are not empty, in order. */
  function NonEmpty(lists: seq<seq<TypeId>>): (r: seq<seq<TypeId>>)
    ensures forall l :: l in r <==> l in lists && l != []
  {
    if lists == [] then []
    else
      var n := |lists| - 1;
      assert lists == lists[..n] + [lists[n]];
      NonEmpty(lists[..n]) + if lists[n] == [] then [] else [lists[n]]
  }

  /** The arguments of a container: the join over every element that has been set and has arguments. */
  class Container {
    const world: World
    var structuredBufferSpecializationArgs: seq<TypeId>
    /** The arguments of each element that has been set. */
    ghost var elements: seq<seq<TypeId>>

    ghost predicate Valid()
      reads this
    {
      SameLength(NonEmpty(elements)) && structuredBufferSpecializationArgs == JoinAll(world, NonEmpty(elements))
    }

    constructor (world: World)
      ensures Valid() && elements == [] && this.world == world
    {
      this.world := world;
      structuredBufferSpecializationArgs, elements := [], [];
    }

    /** setSpecializationArgsForContainerElement, wherever its assertion holds. */
    method SetSpecializationArgsForContainerElement(specializationArgs: seq<TypeId>)
      requires Valid()
      requires structuredBufferSpecializationArgs == []
               || |structuredBufferSpecializationArgs| == |specializationArgs|
      modifies this
      ensures Valid() && elements == old(elements) + [specializationArgs]
    {
      ghost var more := elements + [specializationArgs];
      assert more[..|elements|] == elements;
      JoinedSoFar(world, NonEmpty(elements), specializationArgs);
      if |structuredBufferSpecializationArgs| == 0 {
        structuredBufferSpecializationArgs := specializationArgs;
      } else {
        structuredBufferSpecializationArgs :=
          JoinInto(world, structuredBufferSpecializationArgs, 0, specializationArgs);
      }
      elements := more;
    }
  }

  /** One more list that has arguments, and as many as the join so far unless it is the first. */
  lemma JoinedSoFar(w: World, lists: seq<seq<TypeId>>, args: seq<TypeId>)
    requires SameLength(lists) && forall l :: l in lists ==> l != []
    requires JoinAll(w, lists) == [] || |JoinAll(w, lists)| == |args|
    ensures JoinAll(w, lists) == [] <==> lists == []
    ensures args != [] ==> SameLength(lists + [args])
    ensures args != [] ==>
      JoinAll(w, lists + [args]) == if lists == [] then args else JoinLists(w, JoinAll(w, lists), args)
  {
    if lists != [] {
      assert lists[0] in lists && |JoinAll(w, lists)| == |lists[0]|;
      assert forall i :: 0 <= i < |lists| ==> |lists[i]| == |lists[0]|;
      assert (lists + [args])[..|lists|] == lists;
    }
  }
}
