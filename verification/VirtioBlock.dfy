/** The virtio block device's queue in virtio.c (virtio 1.0, sections 2.4.6 and 2.4.8): requests
    are taken from the available ring in order, at most one is in flight, and each is answered
    by one used-ring entry. */
module VirtioBlock {
  import opened Arith

  /** What a request asks for.  Malformed are chains out of order: they are skipped before the
      device sees them.  Ignored are chains too short for a header, and types other than IN and
      OUT: the device drops them without an answer. */
  datatype Kind = In(writeSize: nat) | Out | Ignored | Malformed {
    predicate Answered() { In? || Out? }
  }

  /** A request as the driver makes it available: its first descriptor, and what it asks for. */
  datatype Request = Request(desc: nat, kind: Kind)

  /** A used-ring entry. */
  datatype Used = Used(id: nat, len: nat)

  const INDEX := 0x1_0000

  function Answer(r: Request): seq<Used> {
    match r.kind
    case In(writeSize) => [Used(r.desc, writeSize)]
    case Out => [Used(r.desc, 1)]
    case _ => []
  }

  /** The answers that a list of requests is due, in order. */
  function Answers(rs: seq<Request>): seq<Used> {
    if rs == [] then [] else Answers(rs[..|rs| - 1]) + Answer(rs[|rs| - 1])
  }

  lemma AnswersSnoc(rs: seq<Request>, n: nat)
    requires n < |rs|
    ensures Answers(rs[..n + 1]) == Answers(rs[..n]) + Answer(rs[n])
  {
    assert rs[..n + 1][..n] == rs[..n];
  }

  /** Chains out of order are due no answer. */
  lemma {:induction false} AnswersSkip(rs: seq<Request>, m: nat, n: nat)
    requires m <= n <= |rs| && forall k :: m <= k < n ==> rs[k].kind.Malformed?
    ensures Answers(rs[..n]) == Answers(rs[..m])
    decreases n
  {
    if m < n {
      AnswersSnoc(rs, n - 1);
      AnswersSkip(rs, m, n - 1);
    }
  }

  /** Ring sizes divide the index range. */
  predicate RingSize(num: nat) { 0 < num < INDEX && INDEX % num == 0 }

  lemma SlotOf(n: nat, num: nat)
    requires RingSize(num)
    ensures n % INDEX % num == n % num
  {
    var q, r, k := n / INDEX, n % INDEX, INDEX / num;
    var a, b := r / num, r % num;
    assert INDEX == k * num;
    DigitsRegrouped(q, k, a, num, b);
    DivUnique(n, num, q * k + a, b);
  }

  /** Numbers less than a ring apart have different slots. */
  lemma SlotsDiffer(m: nat, n: nat, num: nat)
    requires num > 0 && m < n < m + num
    ensures m % num != n % num
  {
    if m % num == n % num {
      DivUnique(n - m, num, n / num - m / num, 0);
      DivUnique(n - m, num, 0, n - m);
    }
  }

  lemma NextIndex(n: nat)
    ensures (n % INDEX + 1) % INDEX == (n + 1) % INDEX
  {
  }

  class Queue {
    const num: nat

    // in guest memory
    var availIdx: nat
    var availRing: seq<Request>
    var usedIdx: nat
    var usedRing: seq<Used>

    // in the device
    var lastAvailIdx: nat
    var inProgress: bool
    var req: Request

    /** Everything the driver has made available, how much of it the device has taken, which of
        it is in flight, and every entry ever put into the used ring. */
    ghost var posted: seq<Request>
    ghost var taken: nat
    ghost var current: nat
    ghost var used: seq<Used>

    ghost predicate AvailOk()
      reads this
    {
      && taken <= |posted| <= taken + num && |availRing| == num
      && availIdx == |posted| % INDEX && lastAvailIdx == taken % INDEX
      && forall k: nat :: taken <= k < |posted| ==> availRing[k % num] == posted[k]
    }

    ghost predicate UsedOk()
      reads this
    {
      && usedIdx == |used| % INDEX && |usedRing| == num
      && forall k: nat :: k < |used| <= k + num ==> usedRing[k % num] == used[k]
    }

    /** The request in flight is the last one taken that is a chain in order. */
    ghost predicate InFlight()
      reads this
    {
      && current < taken <= |posted| && req == posted[current] && req.kind.Answered()
      && forall k :: current < k < taken ==> posted[k].kind.Malformed?
    }

    /** The used ring holds the answers to all requests taken, but for the one in flight. */
    ghost predicate Valid()
      reads this
    {
      && RingSize(num) && AvailOk() && UsedOk()
      && if inProgress then InFlight() && used == Answers(posted[..current]) else used == Answers(posted[..taken])
    }

    constructor (size: nat)
      requires RingSize(size)
      ensures Valid() && posted == [] && used == [] && num == size
    {
      num := size;
      availIdx, usedIdx, lastAvailIdx, inProgress, req := 0, 0, 0, false, Request(0, Ignored);
      availRing := seq(size, i => Request(0, Ignored));
      usedRing := seq(size, i => Used(0, 0));
      posted, taken, current, used := [], 0, 0, [];
    }

    /** The driver makes a request available; there must be a free slot. */
    method MakeAvailable(r: Request)
      requires Valid() && |posted| < taken + num
      modifies this`availIdx, this`availRing, this`posted
      ensures Valid() && posted == old(posted) + [r]
    {
      hide Answers;
      SlotOf(|posted|, num);
      NextIndex(|posted|);
      forall k: nat | taken <= k < |posted| ensures k % num != |posted| % num { SlotsDiffer(k, |posted|, num); }
      availRing := availRing[availIdx % num := r];
      availIdx := (availIdx + 1) % INDEX;
      posted := posted + [r];
      assert inProgress ==> posted[..current] == old(posted)[..current];
      assert posted[..taken] == old(posted)[..taken];
    }

    /** virtio_consume_desc: the next used-ring entry, the index growing by one mod 2^16. */
    method Consume(desc: nat, len: nat)
      requires RingSize(num) && UsedOk()
      modifies this`usedIdx, this`usedRing, this`used
      ensures UsedOk() && used == old(used) + [Used(desc, len)]
      ensures usedIdx == (old(usedIdx) + 1) % INDEX
    {
      var index := usedIdx;
      SlotOf(|used|, num);
      NextIndex(|used|);
      forall k: nat | k < |used| < k + num ensures k % num != |used| % num { SlotsDiffer(k, |used|, num); }
      usedIdx := (index + 1) % INDEX;
      usedRing := usedRing[index % num := Used(desc, len)];
      used := used + [Used(desc, len)];
    }

    /** virtio_block_req_end: the answer to the current request. */
    method EndRequest()
      requires RingSize(num) && UsedOk() && req.kind.Answered()
      modifies this`usedIdx, this`usedRing, this`used
      ensures UsedOk() && used == old(used) + Answer(req) && |Answer(req)| == 1
    {
      match req.kind {
        case In(writeSize) => Consume(req.desc, writeSize);
        case Out => Consume(req.desc, 1);
      }
    }

    /** virtio_block_recv_request, up to what the block device answers: it may complete the
        request at once, or later.  False is the negative result that stops the notification. */
    method Receive(r: Request, later: bool) returns (ok: bool)
      requires Valid() && taken < |posted| && r == posted[taken] && !r.kind.Malformed?
      modifies this`inProgress, this`req, this`usedIdx, this`usedRing, this`used
      ensures RingSize(num) && AvailOk() && UsedOk() && ok == !old(inProgress)
      ensures !ok ==> Valid() && used == old(used) && inProgress && req == old(req)
      ensures ok && inProgress ==> req == r && r.kind.Answered() && used == old(used)
      ensures ok && !inProgress ==> used == old(used) + Answer(r)
    {
      hide Answers;
      if inProgress { return false; }
      if !r.kind.Ignored? {
        req := r;
        if later { inProgress := true; } else { EndRequest(); }
      }
      ok := true;
    }

    /** One round of queue_notify */
    method TakeNext(later: nat -> bool) returns (ok: bool)
      requires Valid() && taken < |posted|
      modifies this`lastAvailIdx, this`inProgress, this`req, this`usedIdx, this`usedRing, this`used, this`taken, this`current
      ensures Valid() && old(used) <= used && taken == old(taken) + if ok then 1 else 0
      ensures ok <==> !old(inProgress) || posted[old(taken)].kind.Malformed?
      ensures old(inProgress) ==> used == old(used) && inProgress && req == old(req) && current == old(current)
    {
      hide Answers;
      SlotOf(taken, num);
      var r := availRing[lastAvailIdx % num];
      AnswersSnoc(posted, taken);
      if !r.kind.Malformed? {
        ghost var k := taken;
        ok := Receive(r, later(lastAvailIdx));
        if !ok { return; }
        current := k;
      }
      NextIndex(taken);
      lastAvailIdx := (lastAvailIdx + 1) % INDEX;
      taken := taken + 1;
      ok := true;
    }

    /** queue_notify: take requests until none are left, or one is in flight and the next one is a
        chain in order.  `later` says of the request at each index of the available ring
        whether the block device will complete it later. */
    method Notify(later: nat -> bool)
      requires Valid()
      modifies this`lastAvailIdx, this`inProgress, this`req, this`usedIdx, this`usedRing, this`used, this`taken, this`current
      ensures Valid() && taken >= old(taken) && old(used) <= used
      ensures taken < |posted| ==> inProgress && !posted[taken].kind.Malformed?
      ensures old(inProgress) ==> used == old(used) && inProgress && req == old(req) && current == old(current)
    {
      hide Answers, UsedOk;
      var avail := availIdx;
      IndexReached(taken, |posted|);
      while lastAvailIdx != avail
        invariant Valid() && avail == |posted| % INDEX && old(taken) <= taken && old(used) <= used
        invariant old(inProgress) ==> used == old(used) && inProgress && req == old(req) && current == old(current)
        decreases |posted| - taken
      {
        IndexReached(taken, |posted|);
        var ok := TakeNext(later);
        if !ok { return; }
      }
      IndexReached(taken, |posted|);
    }

    lemma IndexReached(m: nat, n: nat)
      requires RingSize(num) && m <= n <= m + num
      ensures m % INDEX == n % INDEX <==> m == n
    {
      if m < n { SlotsDiffer(m, n, INDEX); }
    }

    /** virtio_block_req_cb: the request in flight is answered, and waiting ones are taken. */
    method Complete(later: nat -> bool)
      requires Valid() && inProgress
      modifies this`lastAvailIdx, this`inProgress, this`req, this`usedIdx, this`usedRing, this`used, this`taken, this`current
      ensures Valid() && taken >= old(taken) && old(used) + Answer(old(req)) <= used
      ensures taken < |posted| ==> inProgress && !posted[taken].kind.Malformed?
    {
      hide Answers;
      AnswersSnoc(posted, current);
      AnswersSkip(posted, current + 1, taken);
      EndRequest();
      inProgress := false;
      Notify(later);
    }
  }

  /** Between notifications the used ring has exactly one entry for every IN and OUT request taken
      and not in flight, in the order in which they were made available. */
  lemma OneAnswerEach(q: Queue, i: nat)
    requires q.Valid() && i < q.taken && q.posted[i].kind.Answered() && (q.inProgress ==> i != q.current)
    ensures q.inProgress ==> i < q.current
    ensures var at := |Answers(q.posted[..i])|;
            && at < |q.used| && [q.used[at]] == Answer(q.posted[i])
            && forall j :: i < j <= q.taken && (q.inProgress ==> j <= q.current) ==> at < |Answers(q.posted[..j])|
  {
    hide Answer;
    var n := if q.inProgress then q.current else q.taken;
    AnswersSnoc(q.posted, i);
    OneEach(q.posted[i]);
    forall j | i < j <= n ensures Answers(q.posted[..i + 1]) <= Answers(q.posted[..j]) {
      AnswersGrow(q.posted, i + 1, j);
    }
    assert Answers(q.posted[..n]) == q.used;
  }

  lemma OneEach(r: Request)
    requires r.kind.Answered()
    ensures |Answer(r)| == 1
  {
  }

  lemma {:induction false} AnswersGrow(rs: seq<Request>, m: nat, n: nat)
    requires m <= n <= |rs|
    ensures Answers(rs[..m]) <= Answers(rs[..n])
    decreases n
  {
    hide Answer;
    if m < n {
      AnswersSnoc(rs, n - 1);
      AnswersGrow(rs, m, n - 1);
    }
  }
}
