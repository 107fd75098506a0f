/** Files with owners and ownership transfer: the noninterference model of
    racket/ni/sfscq.rkt, from single steps to traces. */
module Ownership {
  type Uid = bv32
  type Ino = bv64
  type Val = bv64

  datatype State = State(perm: Ino -> Uid, data: Ino -> Val)

  /** Permissions are public; a user also sees the contents of the files it owns. */
  ghost predicate ViewEqv(u: Uid, s: State, t: State) {
    && (forall ino :: s.perm(ino) == t.perm(ino))
    && (forall ino :: u == s.perm(ino) ==> s.data(ino) == t.data(ino))
  }

  predicate Permitted(s: State, u: Uid, ino: Ino) {
    u == s.perm(ino)
  }

  datatype Action =
    | Read(actor: Uid, ino: Ino)
    | Chown(actor: Uid, ino: Ino, to: Uid)

  datatype Output = Content(val: Val) | Status(code: bv32)

  function ReadStep(s: State, u: Uid, ino: Ino): (State, Output) {
    (s, Content(if Permitted(s, u, ino) then s.data(ino) else 0))
  }

  function ChownStep(s: State, u: Uid, ino: Ino, to: Uid): (State, Output) {
    var ns := State(x => if x == ino then to else s.perm(x), s.data);
    (if Permitted(s, u, ino) then ns else s, Status(0))
  }

  function Step(s: State, a: Action): (State, Output) {
    match a
    case Read(u, ino) => ReadStep(s, u, ino)
    case Chown(u, ino, to) => ChownStep(s, u, ino, to)
  }

  /** The domain of an action: its actor, and the user it may write to. */
  function Target(a: Action): Uid {
    if a.Chown? then a.to else a.actor
  }

  predicate FlowsTo(a: Action, u: Uid) {
    a.actor == u || Target(a) == u
  }

  // ----- Single steps -----

  /** Output consistency: what an actor sees depends only on its own view. */
  lemma OutputConsistent(s: State, t: State, a: Action)
    requires ViewEqv(a.actor, s, t)
    ensures Step(s, a).1 == Step(t, a).1
  {
  }

  /** An owner reads the contents of its file, everyone else reads 0; so what a user can
      read, over all files, is exactly its view. */
  lemma ReadsRevealView(u: Uid, s: State, t: State)
    requires forall ino :: s.perm(ino) == t.perm(ino)
    ensures forall ino :: Step(s, Read(u, ino)).1 == Content(if s.perm(ino) == u then s.data(ino) else 0)
    ensures ViewEqv(u, s, t) <==> forall ino :: Step(s, Read(u, ino)).1 == Step(t, Read(u, ino)).1
  {
    if forall ino :: Step(s, Read(u, ino)).1 == Step(t, Read(u, ino)).1 {
      forall ino | u == s.perm(ino)
        ensures s.data(ino) == t.data(ino)
      {
        assert Step(s, Read(u, ino)).1 == Step(t, Read(u, ino)).1;
      }
    }
  }

  /** A permitted transfer shows the contents to the new owner and hides them from the old
      one; one without permission changes nothing. */
  lemma TransferMovesContents(s: State, u: Uid, ino: Ino, to: Uid, v: Uid)
    ensures var s' := Step(s, Chown(u, ino, to)).0;
      && (Step(s', Read(v, ino)).1
          == Content(if v == (if s.perm(ino) == u then to else s.perm(ino)) then s.data(ino) else 0))
      && forall other :: other != ino ==>
        Step(s', Read(v, other)).1 == Step(s, Read(v, other)).1
  {
  }

  /** Exactly when a step keeps the view of `u`: only a permitted transfer to `u` can
      break it, and does so exactly when the file's contents differ. */
  lemma StepConsistentIff(u: Uid, s: State, t: State, a: Action)
    requires ViewEqv(u, s, t)
    ensures ViewEqv(u, Step(s, a).0, Step(t, a).0)
       <==> (a.Chown? && a.to == u && Permitted(s, a.actor, a.ino) ==> s.data(a.ino) == t.data(a.ino))
  {
    var s', t' := Step(s, a).0, Step(t, a).0;
    assert forall ino :: s.perm(ino) == t.perm(ino);
    if a.Chown? && Permitted(s, a.actor, a.ino) {
      assert s'.perm(a.ino) == a.to;
      assert forall ino :: ino != a.ino ==> s'.perm(ino) == s.perm(ino);
    }
  }

  /** Weak step consistency together with step respect for the intransitive policy: the
      actor's view is needed only when the action flows to `u`. */
  lemma WeakStepAndRespect(u: Uid, s: State, t: State, a: Action)
    requires FlowsTo(a, u) ==> ViewEqv(a.actor, s, t)
    requires ViewEqv(u, s, t)
    ensures ViewEqv(u, Step(s, a).0, Step(t, a).0)
  {
    StepConsistentIff(u, s, t, a);
  }

  // ----- A group of users, and traces -----

  ghost predicate GroupEqv(group: set<Uid>, s: State, t: State) {
    && (forall ino :: s.perm(ino) == t.perm(ino))
    && (forall u :: u in group ==> ViewEqv(u, s, t))
  }

  /** A transfer into the group by someone outside it. */
  predicate Imports(group: set<Uid>, a: Action) {
    a.Chown? && a.to in group && a.actor !in group
  }

  lemma GroupStep(group: set<Uid>, s: State, t: State, a: Action)
    requires GroupEqv(group, s, t) && !Imports(group, a)
    ensures GroupEqv(group, Step(s, a).0, Step(t, a).0)
    ensures a.actor in group ==> Step(s, a).1 == Step(t, a).1
  {
    var s', t' := Step(s, a).0, Step(t, a).0;
    assert forall ino :: s'.perm(ino) == t'.perm(ino);
    forall u | u in group
      ensures ViewEqv(u, s', t')
    {
      assert ViewEqv(u, s, t);
      if FlowsTo(a, u) {
        assert a.actor in group;
      }
      WeakStepAndRespect(u, s, t, a);
    }
  }

  /** An action that is not an import keeps every pair of states that look the same to the
      group so, and an import does not. */
  lemma SafeActionIff(group: set<Uid>, a: Action)
    ensures (forall s, t :: GroupEqv(group, s, t) ==> GroupEqv(group, Step(s, a).0, Step(t, a).0))
       <==> !Imports(group, a)
  {
    if Imports(group, a) {
      var s := State(_ => a.actor, _ => 0);
      var t := State(_ => a.actor, _ => 1);
      assert GroupEqv(group, s, t);
      var s', t' := Step(s, a).0, Step(t, a).0;
      assert s'.perm(a.ino) == a.to && s'.data(a.ino) != t'.data(a.ino);
      assert !ViewEqv(a.to, s', t');
    } else {
      forall s, t | GroupEqv(group, s, t)
        ensures GroupEqv(group, Step(s, a).0, Step(t, a).0)
      {
        GroupStep(group, s, t, a);
      }
    }
  }

  function Run(s: State, trace: seq<Action>): State
    decreases |trace|
  {
    if trace == [] then s else Run(Step(s, trace[0]).0, trace[1..])
  }

  /** The outputs of the group's own actions, in order. */
  function Observed(group: set<Uid>, s: State, trace: seq<Action>): seq<Output>
    decreases |trace|
  {
    if trace == [] then []
    else
      var (s', o) := Step(s, trace[0]);
      (if trace[0].actor in group then [o] else []) + Observed(group, s', trace[1..])
  }

  /** Trace noninterference: without imports, states that look the same to a group stay so
      through any trace, and the group observes the same outputs. */
  lemma {:induction false} TraceNoninterference(group: set<Uid>, s: State, t: State, trace: seq<Action>)
    requires GroupEqv(group, s, t)
    requires forall a :: a in trace ==> !Imports(group, a)
    ensures GroupEqv(group, Run(s, trace), Run(t, trace))
    ensures Observed(group, s, trace) == Observed(group, t, trace)
    decreases |trace|
  {
    if trace != [] {
      GroupStep(group, s, t, trace[0]);
      TraceNoninterference(group, Step(s, trace[0]).0, Step(t, trace[0]).0, trace[1..]);
    }
  }
  ghost predicate ImportFree(group: set<Uid>, trace: seq<Action>) {
    forall a :: a in trace ==> !Imports(group, a)
  }

  /** Nothing but equivalence explains equal observations: states with the same owners look
      the same to a group if and only if no trace without imports tells them apart. */
  lemma TracesTellViewsApart(group: set<Uid>, s: State, t: State)
    requires forall ino :: s.perm(ino) == t.perm(ino)
    ensures GroupEqv(group, s, t)
       <==> forall trace :: ImportFree(group, trace) ==>
              Observed(group, s, trace) == Observed(group, t, trace)
  {
    if GroupEqv(group, s, t) {
      forall trace | ImportFree(group, trace)
        ensures Observed(group, s, trace) == Observed(group, t, trace)
      {
        TraceNoninterference(group, s, t, trace);
      }
    } else {
      var u :| u in group && !ViewEqv(u, s, t);
      ReadsRevealView(u, s, t);
      var ino :| Step(s, Read(u, ino)).1 != Step(t, Read(u, ino)).1;
      var trace := [Read(u, ino)];
      assert ImportFree(group, trace);
      assert Observed(group, s, trace)[0] != Observed(group, t, trace)[0];
    }
  }
}
