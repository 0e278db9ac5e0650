/** The cleanup ledger: resources are written down before they are created, confirmed with an id when they
    are, and handed to cleanup in reverse. */
module Ledger {
  import opened Options
  import opened Utf8

  datatype OwnedResource =
    | Container(name: Text, id: Option<Text>)
    | Network(name: Text, id: Option<Text>)
  {
    function Confirmed(newId: Text): OwnedResource {
      match this
      case Container(n, _) => Container(n, Some(newId))
      case Network(n, _) => Network(n, Some(newId))
    }
  }

  // ---------------------------------------------------------------------------------------------
  // Single operations

  /** The newest resource named `name`, or the length. */
  function Newest(order: seq<OwnedResource>, name: Text): (i: nat)
    ensures i <= |order|
    ensures i < |order| ==> order[i].name == name && forall k | i < k < |order| :: order[k].name != name
    ensures i == |order| ==> forall k | 0 <= k < |order| :: order[k].name != name
  {
    if order == [] then 0
    else
      var last := |order| - 1;
      if order[last].name == name then last
      else
        var i := Newest(order[..last], name);
        if i == last then |order| else i
  }

  function Confirm(order: seq<OwnedResource>, name: Text, id: Text): (r: seq<OwnedResource>)
    ensures |r| == |order|
  {
    var i := Newest(order, name);
    if i == |order| then order else order[i := order[i].Confirmed(id)]
  }

  function Reverse(order: seq<OwnedResource>): (r: seq<OwnedResource>)
    ensures |r| == |order| && forall k | 0 <= k < |r| :: r[k] == order[|order| - 1 - k]
  {
    seq(|order|, k requires 0 <= k < |order| => order[|order| - 1 - k])
  }

  class ResourceLedger {
    var creationOrder: seq<OwnedResource>

    constructor ()
      ensures creationOrder == []
    {
      creationOrder := [];
    }

    method ExpectNetwork(name: Text)
      modifies this
      ensures creationOrder == old(creationOrder) + [Network(name, None)]
    {
      creationOrder := creationOrder + [Network(name, None)];
    }

    method ExpectContainer(name: Text)
      modifies this
      ensures creationOrder == old(creationOrder) + [Container(name, None)]
    {
      creationOrder := creationOrder + [Container(name, None)];
    }

    method ConfirmContainer(name: Text, id: Text)
      modifies this
      ensures creationOrder == Confirm(old(creationOrder), name, id)
    {
      ConfirmNewest(name, id);
    }

    method ConfirmNetwork(name: Text, id: Text)
      modifies this
      ensures creationOrder == Confirm(old(creationOrder), name, id)
    {
      ConfirmNewest(name, id);
    }

    /** `confirm`: searched from the newest backwards. */
    method ConfirmNewest(name: Text, id: Text)
      modifies this
      ensures creationOrder == Confirm(old(creationOrder), name, id)
    {
      var i := |creationOrder|;
      while i > 0
        invariant 0 <= i <= |creationOrder| && creationOrder == old(creationOrder)
        invariant forall k | i <= k < |creationOrder| :: creationOrder[k].name != name
      {
        i := i - 1;
        if creationOrder[i].name == name {
          creationOrder := creationOrder[i := creationOrder[i].Confirmed(id)];
          return;
        }
      }
    }

    /** `take_cleanup_order`: the ledger is drained. */
    method TakeCleanupOrder() returns (order: seq<OwnedResource>)
      modifies this
      ensures creationOrder == [] && order == Reverse(old(creationOrder))
    {
      order := Reverse(creationOrder);
      creationOrder := [];
    }
  }

  // ---------------------------------------------------------------------------------------------
  // Any sequence of operations

  datatype Operation = Expect(resource: OwnedResource) | Confirmation(name: Text, id: Text) | Take

  /** A resource is expected without an id. */
  predicate IsExpectation(op: Operation) { op.Expect? ==> op.resource.id.None? }

  /** What the ledger holds after the operations. */
  function Holds(ops: seq<Operation>): seq<OwnedResource> {
    if ops == [] then []
    else
      var before := Holds(ops[..|ops| - 1]);
      match ops[|ops| - 1]
      case Expect(resource) => before + [resource]
      case Confirmation(name, id) => Confirm(before, name, id)
      case Take => []
  }

  /** All that was handed to cleanup, in the order of handing over. */
  function HandedOver(ops: seq<Operation>): seq<OwnedResource> {
    if ops == [] then []
    else
      var rest := ops[..|ops| - 1];
      HandedOver(rest) + if ops[|ops| - 1] == Take then Reverse(Holds(rest)) else []
  }

  /** The operations performed on a real ledger. */
  method Perform(ops: seq<Operation>) returns (handed: seq<OwnedResource>, left: seq<OwnedResource>)
    requires forall op | op in ops :: IsExpectation(op)
    ensures handed == HandedOver(ops) && left == Holds(ops)
  {
    var ledger := new ResourceLedger();
    handed := [];
    for i := 0 to |ops|
      invariant ledger.creationOrder == Holds(ops[..i]) && handed == HandedOver(ops[..i])
    {
      assert ops[..i + 1][..i] == ops[..i];
      assert IsExpectation(ops[i]);
      match ops[i]
      case Expect(Container(name, _)) => ledger.ExpectContainer(name);
      case Expect(Network(name, _)) => ledger.ExpectNetwork(name);
      case Confirmation(name, id) => ledger.ConfirmContainer(name, id);
      case Take =>
        var order := ledger.TakeCleanupOrder();
        handed := handed + order;
    }
    assert ops[..|ops|] == ops;
    left := ledger.creationOrder;
  }

  /** Kind and name, which no operation changes. */
  datatype Tag = ContainerTag(name: Text) | NetworkTag(name: Text)

  function TagOf(r: OwnedResource): Tag {
    if r.Container? then ContainerTag(r.name) else NetworkTag(r.name)
  }

  function Tags(order: seq<OwnedResource>): (t: seq<Tag>)
    ensures |t| == |order| && forall k | 0 <= k < |t| :: t[k] == TagOf(order[k])
  {
    seq(|order|, k requires 0 <= k < |order| => TagOf(order[k]))
  }

  function Expected(ops: seq<Operation>): seq<Tag> {
    if ops == [] then []
    else
      Expected(ops[..|ops| - 1]) + if ops[|ops| - 1].Expect? then [TagOf(ops[|ops| - 1].resource)] else []
  }

  lemma ConfirmKeepsTags(order: seq<OwnedResource>, name: Text, id: Text)
    ensures Tags(Confirm(order, name, id)) == Tags(order)
  {
  }

  lemma ReverseKeepsTags(order: seq<OwnedResource>)
    ensures multiset(Tags(Reverse(order))) == multiset(Tags(order))
  {
    ReverseMultiset(Tags(order), Tags(Reverse(order)));
  }

  lemma {:induction false} ReverseMultiset(a: seq<Tag>, b: seq<Tag>)
    requires |a| == |b| && forall k | 0 <= k < |a| :: b[k] == a[|a| - 1 - k]
    ensures multiset(a) == multiset(b)
  {
    if a != [] {
      var n := |a| - 1;
      ReverseMultiset(a[..n], b[1..]);
      assert a == a[..n] + [a[n]] && b == [b[0]] + b[1..];
    }
  }

  lemma TagsOfSum(a: seq<OwnedResource>, b: seq<OwnedResource>)
    ensures Tags(a + b) == Tags(a) + Tags(b)
  {
  }

  lemma OneMore(a: seq<Tag>, b: seq<Tag>, e: seq<Tag>, x: Tag)
    requires multiset(a + b) == multiset(e)
    ensures multiset(a + (b + [x])) == multiset(e + [x])
  {
    assert a + (b + [x]) == (a + b) + [x];
  }

  lemma Moved(a: seq<Tag>, b: seq<Tag>, r: seq<Tag>)
    requires multiset(r) == multiset(b)
    ensures multiset((a + r) + []) == multiset(a + b)
  {
    assert (a + r) + [] == a + r;
  }

  lemma EachOnceNext(ops: seq<Operation>)
    requires ops != []
    ensures var rest, op := ops[..|ops| - 1], ops[|ops| - 1];
      && HandedOver(ops) == HandedOver(rest) + (if op == Take then Reverse(Holds(rest)) else [])
      && Expected(ops) == Expected(rest) + (if op.Expect? then [TagOf(op.resource)] else [])
      && Tags(Holds(ops)) == match op
           case Expect(resource) => Tags(Holds(rest)) + [TagOf(resource)]
           case Confirmation(_, _) => Tags(Holds(rest))
           case Take => []
  {
    var rest := ops[..|ops| - 1];
    match ops[|ops| - 1]
    case Expect(resource) => TagsOfSum(Holds(rest), [resource]);
    case Confirmation(name, id) => ConfirmKeepsTags(Holds(rest), name, id);
    case Take =>
  }

  /** Over any sequence of operations every expected resource is handed to cleanup exactly once or is still
      held, unconfirmed ones included, and nothing else ever is. After a final handover all of them
      have been handed over. */
  lemma {:induction false} EachOnce(ops: seq<Operation>)
    ensures multiset(Tags(HandedOver(ops)) + Tags(Holds(ops))) == multiset(Expected(ops))
    ensures ops != [] && ops[|ops| - 1] == Take ==> multiset(Tags(HandedOver(ops))) == multiset(Expected(ops))
  {
    if ops != [] {
      var rest, op := ops[..|ops| - 1], ops[|ops| - 1];
      EachOnce(rest);
      EachOnceNext(ops);
      hide HandedOver, Holds, Expected, Reverse;
      var a, b, e := Tags(HandedOver(rest)), Tags(Holds(rest)), Expected(rest);
      match op
      case Expect(resource) =>
        OneMore(a, b, e, TagOf(resource));
        assert HandedOver(rest) + [] == HandedOver(rest);
      case Confirmation(_, _) =>
        assert HandedOver(rest) + [] == HandedOver(rest) && e + [] == e;
      case Take =>
        ReverseKeepsTags(Holds(rest));
        TagsOfSum(HandedOver(rest), Reverse(Holds(rest)));
        Moved(a, b, Tags(Reverse(Holds(rest))));
        assert e + [] == e && Tags(HandedOver(ops)) + [] == Tags(HandedOver(ops));
    }
  }

  /** While nothing is taken, the ledger holds the expected resources in the order of creation, so that a
      handover gives them in reverse. */
  lemma {:induction false} HeldInOrder(ops: seq<Operation>)
    requires Take !in ops
    ensures Tags(Holds(ops)) == Expected(ops)
  {
    if ops != [] {
      var rest, op := ops[..|ops| - 1], ops[|ops| - 1];
      HeldInOrder(rest);
      assert op in ops;
      match op
      case Expect(resource) =>
        assert Tags(Holds(rest) + [resource]) == Tags(Holds(rest)) + [TagOf(resource)];
      case Confirmation(name, id) =>
        ConfirmKeepsTags(Holds(rest), name, id);
    }
  }

  /** A confirmation at `k` was applied to resource `i`: it was, at that time, the newest of its name. */
  predicate AppliedTo(ops: seq<Operation>, k: nat, i: nat) {
    && k < |ops| && ops[k].Confirmation?
    && i < |Holds(ops[..k])| && Newest(Holds(ops[..k]), ops[k].name) == i
  }

  predicate NoneAfter(ops: seq<Operation>, k: nat, i: nat) {
    forall n | k <= n < |ops| :: !AppliedTo(ops, n, i)
  }

  lemma AppliedEarlier(ops: seq<Operation>, k: nat, i: nat)
    requires k < |ops| - 1
    ensures AppliedTo(ops, k, i) == AppliedTo(ops[..|ops| - 1], k, i)
  {
    var rest := ops[..|ops| - 1];
    assert rest[..k] == ops[..k] && rest[k] == ops[k];
  }

  lemma NoneAfterKept(ops: seq<Operation>, k: nat, i: nat)
    requires ops != [] && !AppliedTo(ops, |ops| - 1, i) && NoneAfter(ops[..|ops| - 1], k, i)
    ensures NoneAfter(ops, k, i)
  {
    hide AppliedTo;
    forall n | k <= n < |ops| ensures !AppliedTo(ops, n, i) {
      if n < |ops| - 1 {
        AppliedEarlier(ops, n, i);
      }
    }
  }

  /** One operation: what it holds at `i`. */
  lemma HoldsStep(ops: seq<Operation>, i: nat)
    requires ops != [] && Take !in ops && i < |Holds(ops)|
    ensures var held, op := Holds(ops[..|ops| - 1]), ops[|ops| - 1];
      && (i < |held| && AppliedTo(ops, |ops| - 1, i) ==> Holds(ops)[i] == held[i].Confirmed(op.id))
      && (i < |held| && !AppliedTo(ops, |ops| - 1, i) ==> Holds(ops)[i] == held[i])
      && (i >= |held| ==> op.Expect? && Holds(ops)[i] == op.resource)
  {
    assert ops[|ops| - 1] in ops;
    hide Newest;
  }

  /** `id` is that of the latest confirmation applied to resource `i`, or there was none. */
  ghost predicate LatestIs(ops: seq<Operation>, i: nat, id: Option<Text>) {
    if id.None? then NoneAfter(ops, 0, i)
    else exists k: nat :: AppliedTo(ops, k, i) && NoneAfter(ops, k + 1, i) && ops[k].id == id.value
  }

  lemma LatestApplied(ops: seq<Operation>, i: nat)
    requires ops != [] && AppliedTo(ops, |ops| - 1, i)
    ensures LatestIs(ops, i, Some(ops[|ops| - 1].id))
  {
    assert NoneAfter(ops, |ops| - 1 + 1, i);
  }

  lemma LatestKept(ops: seq<Operation>, i: nat, id: Option<Text>)
    requires ops != [] && !AppliedTo(ops, |ops| - 1, i) && LatestIs(ops[..|ops| - 1], i, id)
    ensures LatestIs(ops, i, id)
  {
    var rest := ops[..|ops| - 1];
    hide AppliedTo, NoneAfter;
    if id.Some? {
      var k: nat :| AppliedTo(rest, k, i) && NoneAfter(rest, k + 1, i) && rest[k].id == id.value;
      AppliedInRange(rest, k, i);
      AppliedEarlier(ops, k, i);
      NoneAfterKept(ops, k + 1, i);
    } else {
      NoneAfterKept(ops, 0, i);
    }
  }

  /** The id a resource is handed over with is that of the latest confirmation which found it the newest of
      its name; it has none exactly if there was no such confirmation. */
  lemma {:induction false} IdIsLatest(ops: seq<Operation>, i: nat)
    requires (forall op | op in ops :: IsExpectation(op)) && Take !in ops && i < |Holds(ops)|
    ensures LatestIs(ops, i, Holds(ops)[i].id)
  {
    var rest, op := ops[..|ops| - 1], ops[|ops| - 1];
    assert op in ops && forall o | o in rest :: o in ops;
    HoldsStep(ops, i);
    hide AppliedTo, LatestIs;
    if i >= |Holds(rest)| {
      HeldGrows(ops, i);
      NoneIsLatest(ops, i);
    } else {
      IdIsLatest(rest, i);
      if AppliedTo(ops, |ops| - 1, i) {
        LatestApplied(ops, i);
      } else {
        LatestKept(ops, i, Holds(rest)[i].id);
      }
    }
  }

  lemma AppliedInRange(ops: seq<Operation>, k: nat, i: nat)
    requires AppliedTo(ops, k, i)
    ensures k < |ops| && ops[k].Confirmation?
  {
  }

  lemma NoneIsLatest(ops: seq<Operation>, i: nat)
    requires NoneAfter(ops, 0, i)
    ensures LatestIs(ops, i, None)
  {
  }

  /** A resource that is yet to be expected was never confirmed. */
  lemma {:induction false} HeldGrows(ops: seq<Operation>, i: nat)
    requires ops != [] && Take !in ops && i >= |Holds(ops[..|ops| - 1])| && !ops[|ops| - 1].Confirmation?
    ensures NoneAfter(ops, 0, i)
  {
    forall n | 0 <= n < |ops| ensures !AppliedTo(ops, n, i) {
      if n < |ops| - 1 {
        HoldsMonotone(ops[..|ops| - 1], n);
        assert ops[..|ops| - 1][..n] == ops[..n];
      }
    }
  }

  lemma {:induction false} HoldsMonotone(ops: seq<Operation>, n: nat)
    requires n <= |ops| && Take !in ops
    ensures |Holds(ops[..n])| <= |Holds(ops)|
  {
    if n < |ops| {
      var rest := ops[..|ops| - 1];
      assert forall o | o in rest :: o in ops;
      HoldsMonotone(rest, n);
      assert rest[..n] == ops[..n];
      assert ops[|ops| - 1] in ops;
    } else {
      assert ops[..n] == ops;
    }
  }

  /** After a handover the ledger starts over: the two results above hold for the operations since then. */
  lemma {:induction false} TakeStartsOver(before: seq<Operation>, after: seq<Operation>)
    ensures Holds(before + [Take] + after) == Holds(after)
  {
    hide Confirm;
    var ops := before + [Take] + after;
    if after == [] {
      assert ops == before + [Take];
    } else {
      var rest := after[..|after| - 1];
      assert ops[..|ops| - 1] == before + [Take] + rest;
      TakeStartsOver(before, rest);
    }
  }
}
