/** Folding gossiped messages: which of them commute, and what follows for nodes that hear the same
    messages in different orders. */
module Gossip {
  import opened Octets
  import opened Orders
  import opened Names
  import opened Cluster

  datatype ClusterMsg =
    | Heartbeat(node: Name, used: u64, total: u64, epoch: u64)
    | Announce(target: Name, replication: u64, erasure: Option<(u16, u16)>)
    | Claim(job: Name, node: Name, ts: u64)
    | Release(job: Name, node: Name)

  function SaturatingSub(a: nat, b: nat): nat {
    if a >= b then a - b else 0
  }

  /** The view after one message heard at `now`. */
  function Observed(v: View, msg: ClusterMsg, now: u64): View {
    match msg
    case Heartbeat(node, used, total, _) => Beaten(v, node, used, total, now)
    case Announce(target, replication, erasure) =>
      (match erasure
       case Some(spec) => WithErasureJob(v, target, spec.0, SaturatingSub(spec.1, spec.0))
       case None => WithJob(v, target, replication))
    case Claim(job, node, ts) => Claimed(v, job, node, ts)
    case Release(job, node) => Released(v, job, node)
  }

  /** A message, the node that published it and the time it is folded at. */
  datatype Heard = Heard(from: NodeId, msg: ClusterMsg, at: u64)

  function Step(v: View, h: Heard): View {
    Observed(v, h.msg, h.at)
  }

  function Fold(v: View, hs: seq<Heard>): View {
    if hs == [] then v else Step(Fold(v, hs[..|hs| - 1]), hs[|hs| - 1])
  }

  lemma {:induction false} FoldSplit(v: View, a: seq<Heard>, b: seq<Heard>)
    ensures Fold(v, a + b) == Fold(Fold(v, a), b)
  {
    if b == [] {
      assert a + b == a;
    } else {
      FoldSplit(v, a, b[..|b| - 1]);
      assert (a + b)[..|a + b| - 1] == a + b[..|b| - 1];
    }
  }

  lemma FoldOne(v: View, h: Heard)
    ensures Fold(v, [h]) == Step(v, h)
  {
    assert [h][..0] == [];
  }

  // ---- which messages commute --------------------------------------------------------------

  /** Messages whose order cannot matter: all but a claim and a release of one job by one node, two
      heartbeats of one node with one stamp, and two announcements of one target with different specs. */
  predicate Independent(a: Heard, b: Heard) {
    match (a.msg, b.msg)
    case (Heartbeat(m, u, t, _), Heartbeat(n, u', t', _)) => m != n || a.at != b.at || (u == u' && t == t')
    case (Announce(x, r, e), Announce(y, r', e')) => x != y || (r == r' && e == e')
    case (Claim(x, m, _), Release(y, n)) => x != y || m != n
    case (Release(x, m), Claim(y, n, _)) => x != y || m != n
    case _ => true
  }

  lemma BeatsCommute(v: View, m: NodeId, u: u64, t: u64, a: u64, n: NodeId, u': u64, t': u64, b: u64)
    requires m != n || a != b || (u == u' && t == t')
    ensures Beaten(Beaten(v, m, u, t, a), n, u', t', b) == Beaten(Beaten(v, n, u', t', b), m, u, t, a)
  {
    var x, y := Beaten(Beaten(v, m, u, t, a), n, u', t', b), Beaten(Beaten(v, n, u', t', b), m, u, t, a);
    assert x.nodes == y.nodes;
  }

  /** What a message does to the claimants of the job it is about. */
  function OnClaimants(c: map<NodeId, u64>, msg: ClusterMsg): map<NodeId, u64> {
    match msg
    case Claim(_, node, ts) =>
      var e := if node in c then c[node] else 0;
      c[node := if e >= ts then e else ts]
    case Release(_, node) => c - {node}
    case _ => c
  }

  function OnReplication(replication: nat, msg: ClusterMsg): nat {
    if msg.Announce? && msg.erasure.None? && msg.replication != 0 then msg.replication else replication
  }

  function OnErasure(erasure: Option<(u16, u16)>, msg: ClusterMsg): Option<(u16, u16)> {
    if msg.Announce? && msg.erasure.Some?
    then Some(Spec(msg.erasure.value.0, SaturatingSub(msg.erasure.value.1, msg.erasure.value.0)))
    else erasure
  }

  /** What a message does to the job it is about. */
  function OnJob(j: Job, msg: ClusterMsg): Job {
    Job(OnReplication(j.replication, msg), OnClaimants(j.claimants, msg), OnErasure(j.erasure, msg))
  }

  function JobIn(msg: ClusterMsg): JobId
    requires !msg.Heartbeat?
  {
    match msg
    case Announce(target, _, _) => target
    case Claim(job, _, _) => job
    case Release(job, _) => job
  }

  /** Releasing an unknown job does nothing; anything else creates the job it is about. */
  predicate Touches(jobs: map<JobId, Job>, msg: ClusterMsg)
    requires !msg.Heartbeat?
  {
    msg.Release? ==> msg.job in jobs
  }

  lemma ObservedOnJob(v: View, msg: ClusterMsg, now: u64)
    requires !msg.Heartbeat?
    ensures Observed(v, msg, now)
         == if Touches(v.jobs, msg) then v.(jobs := v.jobs[JobIn(msg) := OnJob(JobOf(v, JobIn(msg)), msg)]) else v
  {
  }

  lemma OnClaimantsCommutes(c: map<NodeId, u64>, a: Heard, b: Heard)
    requires !a.msg.Heartbeat? && !b.msg.Heartbeat? && JobIn(a.msg) == JobIn(b.msg) && Independent(a, b)
    ensures OnClaimants(OnClaimants(c, a.msg), b.msg) == OnClaimants(OnClaimants(c, b.msg), a.msg)
  {
  }

  lemma OnJobCommutes(j: Job, a: Heard, b: Heard)
    requires !a.msg.Heartbeat? && !b.msg.Heartbeat? && JobIn(a.msg) == JobIn(b.msg) && Independent(a, b)
    ensures OnJob(OnJob(j, a.msg), b.msg) == OnJob(OnJob(j, b.msg), a.msg)
  {
    hide OnClaimants, Spec, SaturatingSub;
    OnClaimantsCommutes(j.claimants, a, b);
  }

  lemma OtherJobsCommute(v: View, a: Heard, b: Heard)
    requires !a.msg.Heartbeat? && !b.msg.Heartbeat? && JobIn(a.msg) != JobIn(b.msg)
    ensures Step(Step(v, a), b) == Step(Step(v, b), a)
  {
    ObservedOnJob(v, a.msg, a.at);
    ObservedOnJob(v, b.msg, b.at);
    ObservedOnJob(Step(v, a), b.msg, b.at);
    ObservedOnJob(Step(v, b), a.msg, a.at);
    hide Observed, OnJob;
    assert Step(Step(v, a), b).jobs == Step(Step(v, b), a).jobs;
  }

  /** Releasing a job nobody has heard of leaves what a later message would start from. */
  lemma UnknownRelease(a: Heard, b: Heard)
    requires a.msg.Release? && !b.msg.Heartbeat? && JobIn(a.msg) == JobIn(b.msg) && Independent(a, b)
    ensures OnJob(OnJob(NO_JOB, b.msg), a.msg) == OnJob(NO_JOB, b.msg)
  {
    assert OnClaimants(OnClaimants(map[], b.msg), a.msg) == OnClaimants(map[], b.msg);
  }

  /** Two messages about one job, when the first does not fall on an unknown job in vain. */
  lemma TwoOnJob(v: View, a: Heard, b: Heard)
    requires !a.msg.Heartbeat? && !b.msg.Heartbeat? && JobIn(a.msg) == JobIn(b.msg) && Touches(v.jobs, a.msg)
    ensures Step(Step(v, a), b)
         == v.(jobs := v.jobs[JobIn(a.msg) := OnJob(OnJob(JobOf(v, JobIn(a.msg)), a.msg), b.msg)])
  {
    hide Observed, OnJob;
    ObservedOnJob(v, a.msg, a.at);
    ObservedOnJob(Step(v, a), b.msg, b.at);
  }

  lemma NothingToRelease(v: View, h: Heard)
    requires h.msg.Release? && h.msg.job !in v.jobs
    ensures Step(v, h) == v
  {
  }

  /** A release of a job nobody has heard of, before or after a message that creates it. */
  lemma ReleaseOfUnknown(v: View, a: Heard, b: Heard)
    requires a.msg.Release? && !b.msg.Heartbeat? && !b.msg.Release? && JobIn(a.msg) == JobIn(b.msg)
    requires Independent(a, b) && JobIn(a.msg) !in v.jobs
    ensures Step(Step(v, a), b) == Step(Step(v, b), a)
  {
    UnknownRelease(a, b);
    hide OnJob, Independent;
    NothingToRelease(v, a);
    TwoOnJob(v, b, a);
    ObservedOnJob(v, b.msg, b.at);
  }

  lemma SameJobCommutes(v: View, a: Heard, b: Heard)
    requires !a.msg.Heartbeat? && !b.msg.Heartbeat? && JobIn(a.msg) == JobIn(b.msg) && Independent(a, b)
    ensures Step(Step(v, a), b) == Step(Step(v, b), a)
  {
    assert Independent(b, a);
    hide Step, OnJob, Independent;
    if Touches(v.jobs, a.msg) && Touches(v.jobs, b.msg) {
      OnJobCommutes(JobOf(v, JobIn(a.msg)), a, b);
      TwoOnJob(v, a, b);
      TwoOnJob(v, b, a);
    } else if a.msg.Release? && b.msg.Release? {
      NothingToRelease(v, a);
      NothingToRelease(v, b);
    } else if a.msg.Release? {
      ReleaseOfUnknown(v, a, b);
    } else {
      ReleaseOfUnknown(v, b, a);
    }
  }

  lemma StepsCommute(v: View, a: Heard, b: Heard)
    requires Independent(a, b)
    ensures Step(Step(v, a), b) == Step(Step(v, b), a)
  {
    if a.msg.Heartbeat? && b.msg.Heartbeat? {
      BeatsCommute(v, a.msg.node, a.msg.used, a.msg.total, a.at, b.msg.node, b.msg.used, b.msg.total, b.at);
    } else if a.msg.Heartbeat? {
      ObservedOnJob(v, b.msg, b.at);
      ObservedOnJob(Step(v, a), b.msg, b.at);
    } else if b.msg.Heartbeat? {
      ObservedOnJob(v, a.msg, a.at);
      ObservedOnJob(Step(v, b), a.msg, a.at);
    } else if JobIn(a.msg) == JobIn(b.msg) {
      SameJobCommutes(v, a, b);
    } else {
      OtherJobsCommute(v, a, b);
    }
  }

  /** Hearing a message twice in a row is hearing it once. */
  lemma StepIdempotent(v: View, a: Heard)
    ensures Step(Step(v, a), a) == Step(v, a)
  {
    var x, y := Step(Step(v, a), a), Step(v, a);
    if a.msg.Heartbeat? {
      assert x.nodes == y.nodes;
    } else {
      ObservedOnJob(v, a.msg, a.at);
      ObservedOnJob(Step(v, a), a.msg, a.at);
      hide Observed;
      OnJobIdempotent(JobOf(v, JobIn(a.msg)), a.msg);
      assert x.jobs == y.jobs;
    }
  }

  lemma OnJobIdempotent(j: Job, msg: ClusterMsg)
    ensures OnJob(OnJob(j, msg), msg) == OnJob(j, msg)
  {
    assert OnClaimants(OnClaimants(j.claimants, msg), msg) == OnClaimants(j.claimants, msg);
  }

  // ---- orders that cannot matter -----------------------------------------------------------

  ghost predicate IndependentOfAll(a: Heard, hs: seq<Heard>) {
    forall i | 0 <= i < |hs| :: Independent(a, hs[i])
  }

  /** A message moves past everything it is independent of. */
  lemma {:induction false} MovesToEnd(v: View, a: Heard, hs: seq<Heard>)
    requires IndependentOfAll(a, hs)
    ensures Fold(Step(v, a), hs) == Step(Fold(v, hs), a)
  {
    if hs != [] {
      var before, last := hs[..|hs| - 1], hs[|hs| - 1];
      assert IndependentOfAll(a, before);
      MovesToEnd(v, a, before);
      StepsCommute(Fold(v, before), a, last);
    }
  }

  /** What one publisher said, in the order it said it. */
  function SaidBy(hs: seq<Heard>, p: NodeId): seq<Heard> {
    if hs == [] then []
    else if hs[0].from == p then [hs[0]] + SaidBy(hs[1..], p)
    else SaidBy(hs[1..], p)
  }

  /** Messages of different publishers never interfere. */
  ghost predicate PublishersIndependent(hs: seq<Heard>) {
    forall i, j | 0 <= i < |hs| && 0 <= j < |hs| && hs[i].from != hs[j].from :: Independent(hs[i], hs[j])
  }

  lemma {:induction false} SaidBySplit(a: seq<Heard>, b: seq<Heard>, p: NodeId)
    ensures SaidBy(a + b, p) == SaidBy(a, p) + SaidBy(b, p)
  {
    if a == [] {
      assert a + b == b;
    } else {
      SaidBySplit(a[1..], b, p);
      assert (a + b)[1..] == a[1..] + b;
    }
  }

  /** The first thing `p` said comes after things only others said. */
  lemma {:induction false} FirstSaid(hs: seq<Heard>, p: NodeId) returns (i: nat)
    requires SaidBy(hs, p) != []
    ensures i < |hs| && hs[i] == SaidBy(hs, p)[0] && hs[i].from == p
    ensures forall j | 0 <= j < i :: hs[j].from != p
  {
    if hs[0].from == p {
      i := 0;
    } else {
      var k := FirstSaid(hs[1..], p);
      i := k + 1;
    }
  }

  lemma {:induction false} Spoken(hs: seq<Heard>, i: nat)
    requires i < |hs|
    ensures SaidBy(hs, hs[i].from) != []
  {
    if i > 0 {
      Spoken(hs[1..], i - 1);
    }
  }

  ghost predicate SameBySpeaker(a: seq<Heard>, b: seq<Heard>) {
    forall p :: SaidBy(a, p) == SaidBy(b, p)
  }

  /** Two nodes that hear the same messages, each publisher's in its own order, end in the same state
      however the publishers' messages are interleaved. */
  lemma {:induction false} InterleavingsAgree(v: View, a: seq<Heard>, b: seq<Heard>)
    requires SameBySpeaker(a, b) && PublishersIndependent(b)
    ensures Fold(v, a) == Fold(v, b)
    decreases |a|
  {
    if a == [] {
      if b != [] {
        Spoken(b, 0);
      }
    } else {
      var h, rest := a[0], a[1..];
      assert SaidBy(a, h.from) == SaidBy(b, h.from) == [h] + SaidBy(rest, h.from);
      var i := FirstSaid(b, h.from);
      var pre, post := b[..i], b[i + 1..];
      assert a == [h] + rest && b == (pre + [h]) + post;
      RemoveFirst(a, b, i);
      assert PublishersIndependent(pre + post);
      InterleavingsAgree(Step(v, h), rest, pre + post);
      assert IndependentOfAll(h, pre) by {
        assert forall j | 0 <= j < i :: pre[j] == b[j];
      }
      MovesToEnd(v, h, pre);
      FoldSplit(v, [h], rest);
      FoldOne(v, h);
      FoldSplit(v, pre + [h], post);
      FoldSplit(v, pre, [h]);
      FoldOne(Fold(v, pre), h);
      FoldSplit(Step(v, h), pre, post);
    }
  }

  lemma RemoveFirst(a: seq<Heard>, b: seq<Heard>, i: nat)
    requires a != [] && SameBySpeaker(a, b) && i < |b| && b[i] == a[0]
    requires forall j | 0 <= j < i :: b[j].from != a[0].from
    ensures SameBySpeaker(a[1..], b[..i] + b[i + 1..])
  {
    var h, pre, post := a[0], b[..i], b[i + 1..];
    forall p
      ensures SaidBy(a[1..], p) == SaidBy(pre + post, p)
    {
      assert SaidBy(a, p) == SaidBy(b, p);
      assert b == pre + ([h] + post);
      SaidBySplit(pre, [h] + post, p);
      SaidBySplit(pre, post, p);
      assert ([h] + post)[1..] == post;
      if p == h.from {
        OthersSaid(pre, p);
        assert SaidBy(a, p)[1..] == SaidBy(a[1..], p) && SaidBy(b, p)[1..] == SaidBy(post, p);
      }
    }
  }

  lemma {:induction false} OthersSaid(hs: seq<Heard>, p: NodeId)
    requires forall j | 0 <= j < |hs| :: hs[j].from != p
    ensures SaidBy(hs, p) == []
  {
    if hs != [] {
      OthersSaid(hs[1..], p);
    }
  }

  /** Each node speaks only for itself, and every target is announced with one spec. */
  ghost predicate Honest(hs: seq<Heard>) {
    && (forall i | 0 <= i < |hs| ::
          match hs[i].msg
          case Heartbeat(node, _, _, _) => node == hs[i].from
          case Claim(_, node, _) => node == hs[i].from
          case Release(_, node) => node == hs[i].from
          case Announce(_, _, _) => true)
    && forall i, j | 0 <= i < |hs| && 0 <= j < |hs| && hs[i].msg.Announce? && hs[j].msg.Announce? ::
         hs[i].msg.target == hs[j].msg.target ==>
           hs[i].msg.replication == hs[j].msg.replication && hs[i].msg.erasure == hs[j].msg.erasure
  }

  /** So any two interleavings of what honest publishers said leave any two nodes that started alike
      in the same state. */
  lemma HonestGossipConverges(v: View, a: seq<Heard>, b: seq<Heard>)
    requires SameBySpeaker(a, b) && Honest(b)
    ensures Fold(v, a) == Fold(v, b)
  {
    forall i, j | 0 <= i < |b| && 0 <= j < |b| && b[i].from != b[j].from
      ensures Independent(b[i], b[j])
    {
    }
    InterleavingsAgree(v, a, b);
  }

  // ---- messages that form a set ------------------------------------------------------------

  ghost predicate AllIndependent(hs: set<Heard>) {
    forall a, b | a in hs && b in hs :: Independent(a, b)
  }

  /** A message already folded adds nothing. */
  lemma {:induction false} FoldAbsorbs(v: View, hs: seq<Heard>, h: Heard)
    requires h in hs && AllIndependent(Elements(hs))
    ensures Step(Fold(v, hs), h) == Fold(v, hs)
  {
    var before, last := hs[..|hs| - 1], hs[|hs| - 1];
    assert h in Elements(hs) && last in Elements(hs);
    if h == last {
      StepIdempotent(Fold(v, before), h);
    } else {
      assert h in before;
      assert Elements(before) <= Elements(hs);
      FoldAbsorbs(v, before, h);
      StepsCommute(Fold(v, before), last, h);
    }
  }

  lemma {:induction false} FoldAbsorbsAll(v: View, a: seq<Heard>, b: seq<Heard>)
    requires Elements(b) <= Elements(a) && AllIndependent(Elements(a))
    ensures Fold(v, a + b) == Fold(v, a)
  {
    if b == [] {
      assert a + b == a;
    } else {
      var before, last := b[..|b| - 1], b[|b| - 1];
      assert last in Elements(b) && Elements(before) <= Elements(b);
      FoldAbsorbsAll(v, a, before);
      assert (a + b)[..|a + b| - 1] == a + before;
      FoldAbsorbs(v, a, last);
    }
  }

  lemma {:induction false} FoldsSwap(v: View, a: seq<Heard>, b: seq<Heard>)
    requires AllIndependent(Elements(a) + Elements(b))
    ensures Fold(v, a + b) == Fold(v, b + a)
  {
    FoldSplit(v, a, b);
    FoldSplit(v, b, a);
    FoldsSwapFrom(v, a, b);
  }

  lemma {:induction false} FoldsSwapFrom(v: View, a: seq<Heard>, b: seq<Heard>)
    requires AllIndependent(Elements(a) + Elements(b))
    ensures Fold(Fold(v, a), b) == Fold(Fold(v, b), a)
  {
    if a != [] {
      var before, last := a[..|a| - 1], a[|a| - 1];
      assert last in Elements(a) && Elements(before) <= Elements(a);
      FoldsSwapFrom(v, before, b);
      forall i | 0 <= i < |b|
        ensures Independent(last, b[i])
      {
        assert b[i] in Elements(b);
      }
      MovesToEnd(Fold(v, before), last, b);
    }
  }

  /** Pairwise independent messages fold to one state in any order and with any repetition: only the
      set of them matters. */
  lemma FoldOfSet(v: View, a: seq<Heard>, b: seq<Heard>)
    requires Elements(a) == Elements(b) && AllIndependent(Elements(a))
    ensures Fold(v, a) == Fold(v, b)
  {
    FoldAbsorbsAll(v, a, b);
    FoldAbsorbsAll(v, b, a);
    FoldsSwap(v, a, b);
  }

  /** In particular heartbeats with distinct stamps and claims alone. */
  lemma BeatsAndClaimsReorder(v: View, a: seq<Heard>, b: seq<Heard>)
    requires Elements(a) == Elements(b)
    requires forall h | h in a :: h.msg.Heartbeat? || h.msg.Claim?
    requires forall g, h | g in a && h in a && g.msg.Heartbeat? && h.msg.Heartbeat? ::
               g.msg.node == h.msg.node && g.at == h.at ==> g == h
    ensures Fold(v, a) == Fold(v, b)
  {
    assert forall h :: h in Elements(a) <==> h in a;
    FoldOfSet(v, a, b);
  }

  // ---- what a fold comes to ----------------------------------------------------------------

  /** A heartbeat of `node`. */
  predicate BeatOf(h: Heard, node: NodeId) {
    h.msg.Heartbeat? && h.msg.node == node
  }

  lemma {:induction false} StampBound(v: View, hs: seq<Heard>, node: NodeId, stamp: u64)
    requires node in v.nodes ==> v.nodes[node].lastHeartbeat <= stamp
    requires forall g | g in hs && BeatOf(g, node) :: g.at <= stamp
    ensures node in Fold(v, hs).nodes ==> Fold(v, hs).nodes[node].lastHeartbeat <= stamp
  {
    if hs != [] {
      var before, last := hs[..|hs| - 1], hs[|hs| - 1];
      StampBound(v, before, node, stamp);
      if !last.msg.Heartbeat? {
        ObservedOnJob(Fold(v, before), last.msg, last.at);
      }
    }
  }

  /** Stamps never fall, and reach that of every heartbeat heard. */
  lemma {:induction false} BeatIsHeard(v: View, hs: seq<Heard>, h: Heard)
    requires h in hs && h.msg.Heartbeat?
    ensures h.msg.node in Fold(v, hs).nodes && Fold(v, hs).nodes[h.msg.node].lastHeartbeat >= h.at
  {
    var before, last := hs[..|hs| - 1], hs[|hs| - 1];
    assert hs == before + [last];
    if !last.msg.Heartbeat? {
      ObservedOnJob(Fold(v, before), last.msg, last.at);
    }
    if h in before {
      BeatIsHeard(v, before, h);
    }
  }

  /** Only a node's heartbeats change what is known of it. */
  lemma {:induction false} SilenceKeepsStatus(v: View, hs: seq<Heard>, node: NodeId)
    requires forall h | h in hs :: !BeatOf(h, node)
    ensures node in Fold(v, hs).nodes <==> node in v.nodes
    ensures node in v.nodes ==> Fold(v, hs).nodes[node] == v.nodes[node]
  {
    if hs != [] {
      var before, last := hs[..|hs| - 1], hs[|hs| - 1];
      assert hs == before + [last] && !BeatOf(last, node);
      SilenceKeepsStatus(v, before, node);
      if !last.msg.Heartbeat? {
        ObservedOnJob(Fold(v, before), last.msg, last.at);
      }
    }
  }

  lemma {:induction false} FoldKeepsConfig(v: View, hs: seq<Heard>)
    ensures Fold(v, hs).config == v.config
  {
    if hs != [] {
      FoldKeepsConfig(v, hs[..|hs| - 1]);
    }
  }

  /** Newer stamps win: whatever order they came in, a node is known as its latest heartbeat says. */
  lemma {:induction false} LatestBeatWins(v: View, hs: seq<Heard>, h: Heard)
    requires h in hs && h.msg.Heartbeat?
    requires h.msg.node in v.nodes ==> v.nodes[h.msg.node].lastHeartbeat <= h.at
    requires forall g | g in hs && BeatOf(g, h.msg.node) :: g.at < h.at || g == h
    ensures h.msg.node in Fold(v, hs).nodes
    ensures Fold(v, hs).nodes[h.msg.node] == NodeStatus(h.at, h.msg.used, h.msg.total)
  {
    var before, last := hs[..|hs| - 1], hs[|hs| - 1];
    assert hs == before + [last];
    if !last.msg.Heartbeat? {
      ObservedOnJob(Fold(v, before), last.msg, last.at);
    }
    if h in before {
      LatestBeatWins(v, before, h);
    } else {
      StampBound(v, before, h.msg.node, h.at);
    }
  }

  /** The last thing said about `node` claiming `job`: a claim, a release, or nothing. */
  function LastWord(hs: seq<Heard>, job: JobId, node: NodeId): Option<bool> {
    if hs == [] then None
    else
      match hs[|hs| - 1].msg
      case Claim(j, n, _) => if j == job && n == node then Some(true) else LastWord(hs[..|hs| - 1], job, node)
      case Release(j, n) => if j == job && n == node then Some(false) else LastWord(hs[..|hs| - 1], job, node)
      case _ => LastWord(hs[..|hs| - 1], job, node)
  }

  /** Who claims a job after any messages: those whose last word on it was a claim, and those of whom
      nothing was said that claimed it before. */
  lemma {:induction false} LastWordStands(v: View, hs: seq<Heard>, job: JobId, node: NodeId)
    ensures node in JobOf(Fold(v, hs), job).claimants
       <==> (match LastWord(hs, job, node)
             case None => node in JobOf(v, job).claimants
             case Some(claims) => claims)
  {
    if hs != [] {
      var before, last := hs[..|hs| - 1], hs[|hs| - 1];
      LastWordStands(v, before, job, node);
      hide Observed, OnErasure, OnReplication;
      ClaimantsAfterOne(Fold(v, before), last, job, node);
    }
  }

  lemma ClaimantsAfterOne(v: View, h: Heard, job: JobId, node: NodeId)
    ensures node in JobOf(Step(v, h), job).claimants
       <==> (match h.msg
             case Claim(j, n, _) => (j == job && n == node) || node in JobOf(v, job).claimants
             case Release(j, n) => !(j == job && n == node) && node in JobOf(v, job).claimants
             case _ => node in JobOf(v, job).claimants)
  {
    if !h.msg.Heartbeat? {
      ObservedOnJob(v, h.msg, h.at);
    }
  }

  /** The last word of somebody who never took anything back is a claim, if there was one. */
  lemma {:induction false} LastWordIsClaim(hs: seq<Heard>, job: JobId, node: NodeId)
    requires forall h | h in hs :: h.msg != Release(job, node)
    ensures LastWord(hs, job, node)
         == if exists h | h in hs :: h.msg.Claim? && h.msg.job == job && h.msg.node == node then Some(true) else None
  {
    if hs != [] {
      var before, last := hs[..|hs| - 1], hs[|hs| - 1];
      assert hs == before + [last];
      LastWordIsClaim(before, job, node);
    }
  }

  /** The last erasure announcement of a job, as it is stored. */
  function LastSpec(hs: seq<Heard>, job: JobId): Option<(u16, u16)> {
    if hs == [] then None
    else
      var m := hs[|hs| - 1].msg;
      if m.Announce? && m.target == job && m.erasure.Some?
      then Some(Spec(m.erasure.value.0, SaturatingSub(m.erasure.value.1, m.erasure.value.0)))
      else LastSpec(hs[..|hs| - 1], job)
  }

  /** The last copy count announced for a job that was not 0, or 0. */
  function LastFactor(hs: seq<Heard>, job: JobId): nat {
    if hs == [] then 0
    else
      var m := hs[|hs| - 1].msg;
      if m.Announce? && m.target == job && m.erasure.None? && m.replication != 0 then m.replication
      else LastFactor(hs[..|hs| - 1], job)
  }

  /** After any messages a job has the last spec and the last copy count announced for it, or those it
      had: claims, releases and heartbeats change neither, and neither kind of announcement the other. */
  lemma {:induction false} AnnouncementsStand(v: View, hs: seq<Heard>, job: JobId)
    ensures JobOf(Fold(v, hs), job).erasure
         == if LastSpec(hs, job).Some? then LastSpec(hs, job) else JobOf(v, job).erasure
    ensures JobOf(Fold(v, hs), job).replication
         == if LastFactor(hs, job) != 0 then LastFactor(hs, job) else JobOf(v, job).replication
    ensures job in v.jobs ==> job in Fold(v, hs).jobs
  {
    if hs != [] {
      var before, last := hs[..|hs| - 1], hs[|hs| - 1];
      AnnouncementsStand(v, before, job);
      SpecAfterOne(Fold(v, before), last, job);
      hide Step, Spec, SaturatingSub;
    }
  }

  lemma SpecAfterOne(v: View, h: Heard, job: JobId)
    ensures var mine := h.msg.Announce? && h.msg.target == job;
            && JobOf(Step(v, h), job).erasure
               == (if mine then OnErasure(JobOf(v, job).erasure, h.msg) else JobOf(v, job).erasure)
            && JobOf(Step(v, h), job).replication
               == (if mine then OnReplication(JobOf(v, job).replication, h.msg) else JobOf(v, job).replication)
            && (job in v.jobs ==> job in Step(v, h).jobs)
  {
    hide OnClaimants, Spec, SaturatingSub;
    if !h.msg.Heartbeat? {
      ObservedOnJob(v, h.msg, h.at);
      hide Observed;
    }
  }

  lemma {:induction false} NothingAnnounced(hs: seq<Heard>, job: JobId)
    requires forall h | h in hs :: !h.msg.Announce?
    ensures LastSpec(hs, job) == None && LastFactor(hs, job) == 0
  {
    if hs != [] {
      assert hs[|hs| - 1] in hs;
      NothingAnnounced(hs[..|hs| - 1], job);
    }
  }
}
