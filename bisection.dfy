/**
 The data model of a multi-culprit bisection: groups of object indices,
 their behaviour classification, how a group is halved, the order in which
 groups are picked for testing, and the controller that owns the cached
 state of every object.
 */
module Bisection {

  /** Whether an object is currently part of the live test set. */
  datatype State = Enabled | Disabled

  /** What an object (or a group of objects) does to the outcome of a test. */
  datatype Behavior = Unknown | Dominant | Recessive

  /** The result of comparing two values. */
  datatype Ordering = Less | Equal | Greater {
    function Reverse(): Ordering {
      match this
      case Less => Greater
      case Equal => Equal
      case Greater => Less
    }
  }

  datatype Option<T> = None | Some(value: T)

  /** The three-way comparison of two machine integers. */
  function CompareNat(x: nat, y: nat): Ordering {
    if x < y then Less else if x > y then Greater else Equal
  }

  /** The indices lo, lo+1, ..., hi in ascending order (empty when lo > hi). */
  function Range(lo: nat, hi: nat): (r: seq<nat>)
    decreases hi + 1 - lo
    ensures |r| == if lo <= hi then hi - lo + 1 else 0
    ensures forall i :: 0 <= i < |r| ==> r[i] == lo + i
  {
    if lo > hi then [] else [lo] + Range(lo + 1, hi)
  }

  lemma RangeMembers(lo: nat, hi: nat)
    ensures forall k :: k in Range(lo, hi) <==> lo <= k <= hi
  {
    var r := Range(lo, hi);
    forall k | lo <= k <= hi
      ensures k in r
    {
      assert r[k - lo] == k;
    }
  }

  lemma RangeAppend(lo: nat, mid: nat, hi: nat)
    requires lo <= mid < hi
    ensures Range(lo, hi) == Range(lo, mid) + Range(mid + 1, hi)
  {
  }

  /**
   An inclusive range [from, to] of indices into the object set, with the
   behaviour the range is known to have. A well-formed group has from <= to.
   */
  datatype Group = Group(from: nat, to: nat, behavior: Behavior) {

    predicate Valid() {
      from <= to
    }

    /** A fresh group whose behaviour is not yet known. */
    static function New(from: nat, to: nat): (g: Group)
      requires from <= to
      ensures g.Valid()
      ensures g.from == from && g.to == to && g.behavior == Unknown
      ensures g.Size() == to - from + 1
    {
      Group(from, to, Unknown)
    }

    /** The same range, reclassified. */
    function WithBehavior(b: Behavior): (g: Group)
      ensures g.behavior == b
      ensures g.from == from && g.to == to
      ensures Valid() ==> g.Valid() && g.Size() == Size()
    {
      this.(behavior := b)
    }

    /** The number of objects in the group; never zero. */
    function Size(): (n: nat)
      requires Valid()
      ensures n >= 1
    {
      to - from + 1
    }

    /** The indices the group covers, in the order iteration yields them. */
    function Indices(): (r: seq<nat>)
      requires Valid()
      ensures |r| == Size()
      ensures forall i :: 0 <= i < |r| ==> r[i] == from + i
      ensures forall k :: k in r <==> from <= k <= to
    {
      RangeMembers(from, to);
      Range(from, to)
    }

    /**
     Halves the group. The lower half gets the extra index of an odd-sized
     group. A group of one index comes back twice, unchanged.
     */
    function Split(): (r: (Group, Group))
      requires Valid()
      ensures r.0.Valid() && r.1.Valid()
      ensures from == to ==> r == (this, this)
      ensures from < to ==>
        && r.0.from == from && r.1.to == to
        && r.0.to + 1 == r.1.from
        && r.0.Size() + r.1.Size() == Size()
        && r.1.Size() <= r.0.Size() <= r.1.Size() + 1
      ensures from < to ==>
        r.0.behavior == r.1.behavior == (if behavior == Recessive then Recessive else Unknown)
    {
      if from == to then
        (this, this)
      else
        var b := match behavior
          case Recessive => Recessive
          case Dominant => Unknown
          case Unknown => Unknown;
        var g1 := Group(from, from + (to - from) / 2, b);
        var g2 := Group(g1.to + 1, to, b);
        (g1, g2)
    }
  }

  /** Two halves of a proper split cover exactly the parent's indices, in order. */
  lemma SplitIndices(g: Group)
    requires g.Valid() && g.from < g.to
    ensures g.Split().0.Indices() + g.Split().1.Indices() == g.Indices()
  {
    RangeAppend(g.from, g.Split().0.to, g.to);
  }

  /** The priority of a behaviour: untested groups first, recessive ones last. */
  function Rank(b: Behavior): (r: nat)
    ensures 1 <= r <= 3
  {
    match b
    case Unknown => 3
    case Dominant => 2
    case Recessive => 1
  }

  /** The ranks order `Unknown > Dominant > Recessive`, so distinct behaviours never tie. */
  lemma RankOrder()
    ensures Rank(Unknown) > Rank(Dominant) > Rank(Recessive)
    ensures forall a: Behavior, b: Behavior :: Rank(a) == Rank(b) ==> a == b
  {
  }

  /**
   The documented priority: `a` is tested before `b` when its behaviour ranks
   higher; then when it is larger; then when it starts earlier.
   */
  predicate TestedBefore(a: Group, b: Group)
    requires a.Valid() && b.Valid()
  {
    || Rank(a.behavior) > Rank(b.behavior)
    || (Rank(a.behavior) == Rank(b.behavior) && a.Size() > b.Size())
    || (Rank(a.behavior) == Rank(b.behavior) && a.Size() == b.Size() && a.from < b.from)
  }

  /**
   The partial comparison as written: behaviour, then size, then `from`
   reversed, then a final step meant to compare `to` that compares `from`
   once more. That last step is only reached when the `from`s are equal, so
   its non-Equal branch, which panics in debug builds, cannot be taken.
   */
  function PartialCmp(a: Group, b: Group): (r: Option<Ordering>)
    requires a.Valid() && b.Valid()
    ensures r.Some?
  {
    var byBehavior := CompareNat(Rank(a.behavior), Rank(b.behavior));
    if byBehavior != Equal then Some(byBehavior) else
    var bySize := CompareNat(a.Size(), b.Size());
    if bySize != Equal then Some(bySize) else
    var byFrom := CompareNat(a.from, b.from);
    if byFrom != Equal then Some(byFrom.Reverse()) else
    var byTo := CompareNat(a.from, b.from);
    if byTo != Equal then
      assert false; Some(byTo.Reverse())
    else
      Some(Equal)
  }

  /** The total order on groups: Greater means `a` is tested before `b`. */
  function Cmp(a: Group, b: Group): (r: Ordering)
    requires a.Valid() && b.Valid()
    ensures r == Greater <==> TestedBefore(a, b)
    ensures r == Less <==> TestedBefore(b, a)
    ensures r == Equal <==> a == b
  {
    PartialCmp(a, b).value
  }

  lemma CmpAntisymmetric(a: Group, b: Group)
    requires a.Valid() && b.Valid()
    ensures Cmp(a, b) == Cmp(b, a).Reverse()
  {
  }

  lemma CmpTransitive(a: Group, b: Group, c: Group)
    requires a.Valid() && b.Valid() && c.Valid()
    requires Cmp(a, b) != Less && Cmp(b, c) != Less
    ensures Cmp(a, c) != Less
    ensures Cmp(a, c) == Equal ==> a == b == c
  {
  }

  /** The examples of the ordering's documentation. */
  lemma OrderingExamples()
    ensures Cmp(Group.New(1, 2), Group.New(1, 2).WithBehavior(Dominant)) == Greater
    ensures Cmp(Group.New(1, 2).WithBehavior(Dominant), Group.New(1, 2).WithBehavior(Recessive)) == Greater
    ensures Cmp(Group.New(1, 4), Group.New(1, 2)) == Greater
    ensures Cmp(Group.New(1, 2), Group.New(2, 3)) == Greater
  {
  }

  /** The split example of the documentation and the unit test on a recessive group. */
  lemma SplitExamples()
    ensures Group.New(7, 8).Split() == (Group.New(7, 7), Group.New(8, 8))
    ensures Group(7, 8, Recessive).Split() == (Group(7, 7, Recessive), Group(8, 8, Recessive))
  {
  }

  /** The size examples of the documentation. */
  lemma SizeExamples()
    ensures Group.New(1, 1).Size() == 1
    ensures Group.New(1, 2).Size() == 2
    ensures Group.New(2, 3).Size() == 2
  {
  }

  /** The iteration example of the documentation. */
  lemma IndicesExample()
    ensures Group.New(3, 7).Indices() == [3, 4, 5, 6, 7]
  {
    var r := Group.New(3, 7).Indices();
    assert |r| == 5 && r[0] == 3 && r[1] == 4 && r[2] == 5 && r[3] == 6 && r[4] == 7;
  }

  /**
   The object states after setting each index of `idx` to `st`, one after
   the other, as the controller's loop does.
   */
  function AssignAll(s: seq<State>, idx: seq<nat>, st: State): (r: seq<State>)
    requires forall i :: 0 <= i < |idx| ==> idx[i] < |s|
    ensures |r| == |s|
    ensures forall i :: 0 <= i < |idx| ==> r[idx[i]] == st
    ensures forall k :: 0 <= k < |s| && k !in idx ==> r[k] == s[k]
  {
    if idx == [] then s
    else AssignAll(s, idx[..|idx| - 1], st)[idx[|idx| - 1] := st]
  }

  /** After the updates, an object holds `st` exactly when its index was updated. */
  lemma {:induction false} AssignAllAt(s: seq<State>, idx: seq<nat>, st: State, k: nat)
    requires forall i :: 0 <= i < |idx| ==> idx[i] < |s|
    requires k < |s|
    ensures AssignAll(s, idx, st)[k] == if k in idx then st else s[k]
  {
    if idx != [] {
      var init := idx[..|idx| - 1];
      AssignAllAt(s, init, st, k);
      assert idx == init + [idx[|idx| - 1]];
    }
  }

  /** Setting one group's state: the group's objects get `st`, all others keep theirs. */
  lemma GroupAssign(s: seq<State>, g: Group, st: State, k: nat)
    requires g.Valid() && g.to < |s| && k < |s|
    ensures AssignAll(s, g.Indices(), st)[k] == if g.from <= k <= g.to then st else s[k]
  {
    AssignAllAt(s, g.Indices(), st, k);
  }

  /** Setting a group's state a second time changes nothing. */
  lemma {:induction false} GroupAssignIdempotent(s: seq<State>, g: Group, st: State)
    requires g.Valid() && g.to < |s|
    ensures AssignAll(AssignAll(s, g.Indices(), st), g.Indices(), st) == AssignAll(s, g.Indices(), st)
  {
    var once := AssignAll(s, g.Indices(), st);
    forall k | 0 <= k < |s|
      ensures AssignAll(once, g.Indices(), st)[k] == once[k]
    {
      GroupAssign(s, g, st, k);
      GroupAssign(once, g, st, k);
    }
  }

  /** Setting the state of both halves of a split sets the state of the whole group. */
  lemma {:induction false} GroupAssignSplit(s: seq<State>, g: Group, st: State)
    requires g.Valid() && g.from < g.to && g.to < |s|
    ensures AssignAll(AssignAll(s, g.Split().0.Indices(), st), g.Split().1.Indices(), st)
         == AssignAll(s, g.Indices(), st)
  {
    var (a, b) := g.Split();
    var halves := AssignAll(AssignAll(s, a.Indices(), st), b.Indices(), st);
    forall k | 0 <= k < |s|
      ensures halves[k] == AssignAll(s, g.Indices(), st)[k]
    {
      GroupAssign(s, a, st, k);
      GroupAssign(AssignAll(s, a.Indices(), st), b, st, k);
      GroupAssign(s, g, st, k);
    }
  }

  /**
   An active bisection: the cached state of every object, and the groups
   that currently partition them.
   */
  class Bisection {
    var objects: array<State>
    var groups: seq<Group>

    ghost predicate Valid()
      reads this
    {
      forall g :: g in groups ==> g.Valid() && g.to < objects.Length
    }

    /** One group covering all objects, not yet classified. */
    constructor (objs: seq<State>)
      requires |objs| > 0
      ensures Valid() && fresh(objects)
      ensures objects[..] == objs
      ensures groups == [Group.New(0, |objs| - 1)]
    {
      objects := new State[|objs|](i requires 0 <= i < |objs| => objs[i]);
      groups := [Group.New(0, |objs| - 1)];
    }

    /** Sets the state of every object in `group`, in ascending index order. */
    method SetGroupState(group: Group, state: State)
      requires Valid()
      requires group.Valid() && group.to < objects.Length
      modifies objects
      ensures Valid()
      ensures objects[..] == AssignAll(old(objects[..]), group.Indices(), state)
      ensures forall k :: 0 <= k < objects.Length ==>
        objects[k] == if group.from <= k <= group.to then state else old(objects[k])
    {
      ghost var before := objects[..];
      ghost var idx := group.Indices();
      for i := group.from to group.to + 1
        invariant objects[..] == AssignAll(before, idx[..i - group.from], state)
      {
        assert idx[..i + 1 - group.from] == idx[..i - group.from] + [i];
        objects[i] := state;
      }
      assert idx[..group.to + 1 - group.from] == idx;
      forall k | 0 <= k < objects.Length
        ensures objects[k] == if group.from <= k <= group.to then state else before[k]
      {
        GroupAssign(before, group, state, k);
      }
    }
  }
}
