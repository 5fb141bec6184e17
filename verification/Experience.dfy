/** The store of lessons: each entry carries the history of its events, from which its state follows. A digest
    stands for the content it names; the screening of the text is a property of the content. */
module Experience {
  import opened Wrappers
  import opened DependencyGraphs
  import opened Identifiers
  import opened Traces

  const MAX_ENTRIES := 128
  const MAX_EVIDENCE := 16
  const MAX_HISTORY := 64
  const TERMINAL_HEADROOM := 4
  const MAX_TICK := 0x100_0000_0000

  type Digest = nat

  datatype State = Proposed | Quarantined | Validated | Active | Revoked | Expired

  datatype Kind =
    | Generating | Screening | Validating | Activating | RollingBack | Revoking | Expiring | Revalidating
    | AddingEvidence

  datatype Applicability = Applicability(
    domain: string, source: Digest, host: string, toolSet: Digest, policy: Digest)

  /** What a decision is bound to. `plain` says that cue and lesson pass the text screen. */
  datatype Content = Content(
    id: Id, cue: string, lesson: string, plain: bool, applicability: Applicability, producer: string,
    generatedAt: int)

  datatype Row = Row(digest: Digest, observedAt: int, supporting: bool)

  datatype Decision = Decision(
    wellFormed: bool, human: bool, approved: bool, content: Content, evidence: set<Digest>, decidedAt: int)

  datatype Reason = Named(name: string) | Sealed(decision: Decision)

  datatype Event = Event(
    seqno: int, kind: Kind, before: Option<State>, after: Option<State>, at: int, reason: Option<Reason>)

  datatype Entry = Entry(
    content: Content, evidence: seq<Row>, expiresAt: Option<int>, revalidateAfter: Option<int>, state: State,
    validatedAt: Option<int>, activation: Option<Decision>, history: seq<Event>)

  datatype Error =
    | InvalidEntry | UnknownEntry | TerminalEntry | InvalidTransition | TimeRegression | HistoryFull
    | StoreFull | DuplicateEntry | InvalidValidation | ValidatorNotIndependent | ValidationNotIndependent
    | Contradicted | PastExpiry | StaleRevalidation | DecisionRefused | DecisionTimeMismatch | InvalidEvidence

  predicate IsTick(at: int) {
    0 <= at < MAX_TICK
  }

  predicate IsId(s: string) {
    IsIdentifierUpTo(s, 64)
  }

  predicate Terminal(s: State) {
    s == Revoked || s == Expired
  }

  // ----- the lifecycle -----

  predicate Live(s: Option<State>) {
    s == Some(Quarantined) || s == Some(Validated) || s == Some(Active)
  }

  /** The states an event may come from. */
  predicate Allowed(kind: Kind, s: Option<State>) {
    match kind
    case Generating => s == None
    case Screening => s == Some(Proposed)
    case Validating => s == Some(Quarantined)
    case Activating => s == Some(Validated)
    case RollingBack => s == Some(Active)
    case Revalidating => s == Some(Validated) || s == Some(Active)
    case _ => Live(s)
  }

  function Result(kind: Kind, s: Option<State>): (r: Option<State>)
    ensures s.Some? ==> r.Some?
  {
    match kind
    case Generating => Some(Proposed)
    case Screening => Some(Quarantined)
    case Validating => Some(Validated)
    case Activating => Some(Active)
    case RollingBack => Some(Validated)
    case Revoking => Some(Revoked)
    case Expiring => Some(Expired)
    case _ => s
  }

  predicate Reasoned(kind: Kind) {
    kind == Activating || kind == RollingBack || kind == Revoking || kind == Expiring
  }

  predicate ReasonOk(kind: Kind, reason: Option<Reason>) {
    match reason
    case None => !Reasoned(kind)
    case Some(Named(name)) => IsId(name)
    case Some(Sealed(_)) => true
  }

  /** Where a history stands: refused, or at a state since a tick. */
  datatype Position = Refused | At(state: Option<State>, since: int)

  function Advance(p: Position, index: nat, e: Event): Position {
    if p.At? && e.seqno == index && Allowed(e.kind, p.state) && e.before == p.state
      && e.after == Result(e.kind, p.state) && IsTick(e.at) && e.at >= p.since && ReasonOk(e.kind, e.reason)
    then At(e.after, e.at) else Refused
  }

  function Replay(history: seq<Event>): Position {
    if history == [] then At(None, 0) else
    Advance(Replay(history[..|history| - 1]), |history| - 1, history[|history| - 1])
  }

  lemma {:induction false} RefusedPrefix(history: seq<Event>, k: nat)
    requires k <= |history| && Replay(history[..k]).Refused?
    ensures Replay(history).Refused?
    decreases |history|
  {
    if k == |history| {
      assert history[..k] == history;
    } else {
      assert history[..|history| - 1][..k] == history[..k];
      RefusedPrefix(history[..|history| - 1], k);
    }
  }

  method ReplayHistory(history: seq<Event>) returns (p: Position)
    ensures p == Replay(history)
  {
    p := At(None, 0);
    for index := 0 to |history|
      invariant p == Replay(history[..index]) && p.At?
    {
      assert history[..index + 1][..index] == history[..index];
      p := Advance(p, index, history[index]);
      if p.Refused? {
        RefusedPrefix(history, index + 1);
        return;
      }
    }
    assert history[..|history|] == history;
  }

  function LastOf(history: seq<Event>, kinds: set<Kind>): Option<Event> {
    if history == [] then None
    else if history[|history| - 1].kind in kinds then Some(history[|history| - 1])
    else LastOf(history[..|history| - 1], kinds)
  }

  function LastValidation(history: seq<Event>): Option<int> {
    match LastOf(history, {Validating, Revalidating}) case None => None case Some(e) => Some(e.at)
  }

  // ----- entries -----

  function DigestsOf(rows: seq<Row>): set<Digest> {
    set r | r in rows :: r.digest
  }

  predicate Unrepeated(rows: seq<Row>) {
    forall i, j :: 0 <= i < j < |rows| ==> rows[i].digest != rows[j].digest
  }

  predicate EvidenceOk(rows: seq<Row>, last: int) {
    && 1 <= |rows| <= MAX_EVIDENCE && Unrepeated(rows)
    && forall i :: 0 <= i < |rows| ==> IsTick(rows[i].observedAt) && rows[i].observedAt <= last
  }

  /** A human's approval of exactly this content, over evidence that the entry holds. */
  predicate Approves(d: Decision, content: Content, evidence: set<Digest>, exact: bool) {
    && d.wellFormed && IsTick(d.decidedAt) && d.human && d.approved && d.content == content
    && if exact then d.evidence == evidence else d.evidence <= evidence
  }

  predicate OptionalTick(t: Option<int>) {
    t.Some? ==> IsTick(t.value)
  }

  predicate ContentOk(c: Content) {
    && c.plain && IsId(c.applicability.domain) && IsId(c.applicability.host)
    && IsId(c.producer) && IsTick(c.generatedAt)
  }

  predicate FieldsOk(e: Entry) {
    && ContentOk(e.content)
    && OptionalTick(e.expiresAt)
    && (e.revalidateAfter.Some? ==> 1 <= e.revalidateAfter.value < MAX_TICK)
  }

  predicate HistoryOk(e: Entry) {
    && 2 <= |e.history| <= MAX_HISTORY
    && Replay(e.history) == At(Some(e.state), e.history[|e.history| - 1].at)
    && e.content.generatedAt <= e.history[0].at
    && e.validatedAt == LastValidation(e.history)
  }

  /** The latest activation is sealed by the decision. */
  predicate SealedBy(e: Entry, d: Decision) {
    var last := LastOf(e.history, {Activating});
    && Approves(d, e.content, DigestsOf(e.evidence), false)
    && last.Some? && last.value.at == d.decidedAt && last.value.reason == Some(Sealed(d))
  }

  predicate RecordOk(e: Entry) {
    FieldsOk(e) && HistoryOk(e) && EvidenceOk(e.evidence, e.history[|e.history| - 1].at)
  }

  /** The record is consistent, and it carries a decision exactly while the entry is active. */
  predicate ValidEntry(e: Entry) {
    match e.activation
    case None => RecordOk(e) && e.state != Active
    case Some(d) => RecordOk(e) && e.state == Active && SealedBy(e, d)
  }

  method ValidateEntry(e: Entry) returns (ok: bool)
    ensures ok <==> ValidEntry(e)
  {
    if !FieldsOk(e) || !(2 <= |e.history| <= MAX_HISTORY) { return false; }
    var p := ReplayHistory(e.history);
    var last := e.history[|e.history| - 1].at;
    ok := p == At(Some(e.state), last) && e.content.generatedAt <= e.history[0].at
      && e.validatedAt == LastValidation(e.history) && EvidenceOk(e.evidence, last)
      && match e.activation case None => e.state != Active case Some(d) => e.state == Active && SealedBy(e, d);
  }

  // ----- what a valid entry says -----

  lemma TerminalRefuses(history: seq<Event>, k: nat)
    requires k < |history| && Replay(history[..k]).At?
    requires Replay(history[..k]).state == Some(Revoked) || Replay(history[..k]).state == Some(State.Expired)
    ensures Replay(history[..k + 1]).Refused?
  {
    assert history[..k + 1][..k] == history[..k];
  }

  /** Nothing happens to an entry once it is revoked or expired. */
  lemma TerminalIsLast(e: Entry, k: nat)
    requires ValidEntry(e) && k <= |e.history| && Replay(e.history[..k]).At?
    requires Replay(e.history[..k]).state == Some(Revoked) || Replay(e.history[..k]).state == Some(Expired)
    ensures k == |e.history|
  {
    if k < |e.history| {
      TerminalRefuses(e.history, k);
      RefusedPrefix(e.history, k + 1);
    }
  }

  /** The event at `k` activated the entry and none since withdrew it. */
  predicate ActivatedAt(history: seq<Event>, k: nat) {
    && k < |history| && history[k].kind == Activating
    && forall j :: k < j < |history| ==> history[j].kind == Revalidating || history[j].kind == AddingEvidence
  }

  lemma {:induction false} ActiveByHistory(history: seq<Event>)
    requires Replay(history).At?
    ensures Replay(history).state == Some(Active) <==> exists k: nat :: ActivatedAt(history, k)
    ensures Replay(history).state == Some(Active) ==>
      exists k: nat :: ActivatedAt(history, k) && LastOf(history, {Activating}) == Some(history[k])
    decreases |history|
  {
    if history != [] {
      var n := |history| - 1;
      var before, e := history[..n], history[n];
      ActiveByHistory(before);
      if e.kind == Activating {
        assert ActivatedAt(history, n);
      } else if e.kind == Revalidating || e.kind == AddingEvidence {
        if k: nat :| ActivatedAt(before, k) && LastOf(before, {Activating}) == Some(before[k]) {
          assert ActivatedAt(history, k) && history[k] == before[k];
        }
        if k: nat :| ActivatedAt(history, k) {
          assert ActivatedAt(before, k);
        }
      } else {
        forall k: nat ensures !ActivatedAt(history, k) {
          assert k < n ==> history[n].kind != Revalidating && history[n].kind != AddingEvidence;
        }
      }
    }
  }

  /** An entry is active exactly when its latest activation stands, and then that event is sealed by a human
      approval of this very content, taken at that tick over evidence the entry holds. */
  lemma ActiveIsApproved(e: Entry)
    requires ValidEntry(e)
    ensures e.state == Active <==> exists k: nat :: ActivatedAt(e.history, k)
    ensures e.state == Active ==> exists k: nat ::
      && ActivatedAt(e.history, k) && e.history[k].reason.Some? && e.history[k].reason.value.Sealed?
      && IsApproval(e.history[k].reason.value.decision, e.content)
      && HeldBy(e.history[k].reason.value.decision.evidence, e.evidence)
      && e.history[k].reason.value.decision.decidedAt == e.history[k].at
  {
    ActiveByHistory(e.history);
    if e.state == Active {
      ApprovalMeaning(e.activation.value, e.content, e.evidence);
    }
  }

  // ----- one more event -----

  function LastTick(e: Entry): int {
    if e.history == [] then 0 else e.history[|e.history| - 1].at
  }

  /** The entry after one more event; a decision survives only while the entry is active. */
  function Extended(e: Entry, kind: Kind, at: int, reason: Option<Reason>): Entry {
    var after := Result(kind, Some(e.state));
    e.(history := e.history + [Event(|e.history|, kind, Some(e.state), after, at, reason)],
       state := after.value,
       activation := if after == Some(Active) then e.activation else None)
  }

  /** The event may follow at this tick. */
  predicate Timely(e: Entry, kind: Kind, at: int) {
    && Allowed(kind, Some(e.state)) && IsTick(at) && at >= LastTick(e)
    && (Reasoned(kind) || |e.history| < MAX_HISTORY - TERMINAL_HEADROOM)
  }

  lemma ExtendedReplays(e: Entry, kind: Kind, at: int, reason: Option<Reason>)
    requires e.history != [] && Replay(e.history) == At(Some(e.state), LastTick(e))
    requires Allowed(kind, Some(e.state)) && IsTick(at) && at >= LastTick(e)
    ensures Replay(Extended(e, kind, at, reason).history)
         == if ReasonOk(kind, reason) then At(Some(Extended(e, kind, at, reason).state), at) else Refused
    ensures LastOf(Extended(e, kind, at, reason).history, {Activating})
         == if kind == Activating then Some(Extended(e, kind, at, reason).history[|e.history|])
            else LastOf(e.history, {Activating})
    ensures LastValidation(Extended(e, kind, at, reason).history)
         == if kind == Validating || kind == Revalidating then Some(at) else LastValidation(e.history)
  {
    assert Extended(e, kind, at, reason).history[..|e.history|] == e.history;
  }

  lemma EvidenceAges(rows: seq<Row>, last: int, at: int)
    requires EvidenceOk(rows, last) && last <= at
    ensures EvidenceOk(rows, at)
  {
  }

  lemma ValidatingKeepsValid(e: Entry, kind: Kind, at: int)
    requires ValidEntry(e) && Timely(e, kind, at) && (kind == Validating || kind == Revalidating)
    ensures ValidEntry(Extended(e.(validatedAt := Some(at)), kind, at, None))
  {
    ExtendedReplays(e.(validatedAt := Some(at)), kind, at, None);
  }

  lemma LeavingHistory(e: Entry, kind: Kind, at: int, name: string)
    requires HistoryOk(e) && Timely(e, kind, at)
    requires kind == RollingBack || kind == Revoking || kind == Expiring
    ensures HistoryOk(Extended(e, kind, at, Some(Named(name)))) <==> |e.history| < MAX_HISTORY && IsId(name)
  {
    ExtendedReplays(e, kind, at, Some(Named(name)));
    assert Extended(e, kind, at, Some(Named(name))).history[0] == e.history[0];
  }

  lemma LeavingKeepsValid(e: Entry, kind: Kind, at: int, name: string)
    requires ValidEntry(e) && Timely(e, kind, at)
    requires kind == RollingBack || kind == Revoking || kind == Expiring
    ensures ValidEntry(Extended(e, kind, at, Some(Named(name)))) <==> |e.history| < MAX_HISTORY && IsId(name)
  {
    LeavingHistory(e, kind, at, name);
    EvidenceAges(e.evidence, LastTick(e), at);
  }

  predicate NewRow(e: Entry, row: Row, at: int) {
    && IsTick(row.observedAt) && row.observedAt <= at
    && row.digest !in DigestsOf(e.evidence) && |e.evidence| < MAX_EVIDENCE
  }

  lemma RowsExtend(rows: seq<Row>, row: Row, last: int, at: int)
    requires EvidenceOk(rows, last) && last <= at
    ensures DigestsOf(rows + [row]) == DigestsOf(rows) + {row.digest}
    ensures EvidenceOk(rows + [row], at) <==>
      IsTick(row.observedAt) && row.observedAt <= at && row.digest !in DigestsOf(rows) && |rows| < MAX_EVIDENCE
  {
    var all := rows + [row];
    assert all[|rows|] == row;
    forall i | 0 <= i < |rows| ensures all[i] == rows[i] && rows[i].digest in DigestsOf(rows) {
    }
  }

  lemma EvidenceKeepsValid(e: Entry, row: Row, at: int)
    requires ValidEntry(e) && Timely(e, AddingEvidence, at)
    ensures ValidEntry(Extended(e.(evidence := e.evidence + [row]), AddingEvidence, at, None)) <==> NewRow(e, row, at)
  {
    ExtendedReplays(e.(evidence := e.evidence + [row]), AddingEvidence, at, None);
    RowsExtend(e.evidence, row, LastTick(e), at);
  }

  lemma ActivatingKeepsValid(e: Entry, d: Decision, at: int)
    requires ValidEntry(e) && Timely(e, Activating, at)
    requires Approves(d, e.content, DigestsOf(e.evidence), true) && d.decidedAt == at
    ensures ValidEntry(Extended(e.(activation := Some(d)), Activating, at, Some(Sealed(d)))) <==> |e.history| < MAX_HISTORY
  {
    ExtendedReplays(e.(activation := Some(d)), Activating, at, Some(Sealed(d)));
  }

  // ----- what the tests on an entry mean -----

  /** Where each kind of event leads from a state that an entry can be in. */
  ghost predicate Moves(kind: Kind, before: State, after: State) {
    match kind
    case Generating => false
    case Screening => before == Proposed && after == Quarantined
    case Validating => before == Quarantined && after == Validated
    case Activating => before == Validated && after == Active
    case RollingBack => before == Active && after == Validated
    case Revoking => before in {Quarantined, Validated, Active} && after == Revoked
    case Expiring => before in {Quarantined, Validated, Active} && after == State.Expired
    case Revalidating => before in {Validated, Active} && after == before
    case AddingEvidence => before in {Quarantined, Validated, Active} && after == before
  }

  /** An event of this kind may come next: the lifecycle has it, no event on record is later, and the last four
      places of the history are kept for the events that activate or end an entry. */
  ghost predicate MayFollow(e: Entry, kind: Kind, at: int) {
    && (exists after :: Moves(kind, e.state, after))
    && 0 <= at < 1_099_511_627_776
    && (forall k :: 0 <= k < |e.history| ==> e.history[k].at <= at)
    && |e.history| < if kind in {Activating, RollingBack, Revoking, Expiring} then 64 else 60
  }

  /** The entry after one more event; decision, evidence and time of validation are left to the operation. */
  ghost predicate Follows(was: Entry, now: Entry, kind: Kind, at: int, reason: Option<Reason>) {
    && Moves(kind, was.state, now.state)
    && now.history == was.history + [Event(|was.history|, kind, Some(was.state), Some(now.state), at, reason)]
    && now.content == was.content && now.expiresAt == was.expiresAt && now.revalidateAfter == was.revalidateAfter
  }

  lemma ExtendedFollows(e: Entry, m: Entry, kind: Kind, at: int, reason: Option<Reason>)
    requires Allowed(kind, Some(e.state)) && m.history == e.history && m.state == e.state && m.content == e.content
    requires m.expiresAt == e.expiresAt && m.revalidateAfter == e.revalidateAfter
    ensures Follows(e, Extended(m, kind, at, reason), kind, at, reason)
  {
    assert kind != Generating;
  }

  lemma AllowedMeaning(kind: Kind, s: State)
    ensures Allowed(kind, Some(s)) <==> exists after :: Moves(kind, s, after)
  {
    if Allowed(kind, Some(s)) {
      assert kind != Generating;
      assert Moves(kind, s, Result(kind, Some(s)).value);
    }
  }

  lemma {:induction false} HistoryRises(history: seq<Event>)
    requires Replay(history).At?
    ensures forall i :: 0 <= i < |history| ==> history[i].at <= Replay(history).since
    decreases |history|
  {
    if history != [] {
      var before := history[..|history| - 1];
      HistoryRises(before);
      forall i | 0 <= i < |history| ensures history[i].at <= Replay(history).since {
        assert i < |before| ==> before[i] == history[i];
      }
    }
  }

  lemma TimelyMeaning(e: Entry, kind: Kind, at: int)
    requires ValidEntry(e)
    ensures Timely(e, kind, at) && |e.history| < MAX_HISTORY <==> MayFollow(e, kind, at)
  {
    AllowedMeaning(kind, e.state);
    HistoryRises(e.history);
  }

  /** A passed validation by somebody else than the producer, over none of the evidence of the entry. */
  ghost predicate Vouches(v: Validation, e: Entry) {
    && v.wellFormed && v.passed && v.validator != e.content.producer
    && 1 <= |v.validator| <= 64 && v.validator[0] !in {'.', '_', ':', '-'}
    && (forall k :: 0 <= k < |v.validator| ==> IdentifierChar(v.validator[k]))
    && forall i :: 0 <= i < |e.evidence| ==> e.evidence[i].digest != v.evidence
  }

  lemma DigestsMeaning(rows: seq<Row>, x: Digest)
    ensures x in DigestsOf(rows) <==> exists i :: 0 <= i < |rows| && rows[i].digest == x
  {
    if x in DigestsOf(rows) {
      var row :| row in rows && row.digest == x;
      var i :| 0 <= i < |rows| && rows[i] == row;
    }
  }

  lemma IndependentMeaning(e: Entry, v: Validation)
    ensures Independent(e, v) <==> Vouches(v, e)
  {
    IdentifierMeaning(v.validator, 64);
    DigestsMeaning(e.evidence, v.evidence);
  }

  /** The decision is a human's approval of this very content. */
  ghost predicate IsApproval(d: Decision, content: Content) {
    d.wellFormed && d.human && d.approved && d.content == content && 0 <= d.decidedAt < 1_099_511_627_776
  }

  /** Every one of the digests is that of a row. */
  ghost predicate HeldBy(digests: set<Digest>, rows: seq<Row>) {
    forall d :: d in digests ==> exists i :: 0 <= i < |rows| && rows[i].digest == d
  }

  /** The digests are those of the rows, no more and no fewer. */
  ghost predicate CoversAll(digests: set<Digest>, rows: seq<Row>) {
    HeldBy(digests, rows) && forall i :: 0 <= i < |rows| ==> rows[i].digest in digests
  }

  lemma NewRowMeaning(e: Entry, row: Row, at: int)
    requires 0 <= at < MAX_TICK
    ensures NewRow(e, row, at) <==>
      0 <= row.observedAt <= at && |e.evidence| < 16 && !HeldBy({row.digest}, e.evidence)
  {
    DigestsMeaning(e.evidence, row.digest);
  }

  lemma ApprovalMeaning(d: Decision, content: Content, rows: seq<Row>)
    ensures Approves(d, content, DigestsOf(rows), true) <==> IsApproval(d, content) && CoversAll(d.evidence, rows)
    ensures Approves(d, content, DigestsOf(rows), false) <==> IsApproval(d, content) && HeldBy(d.evidence, rows)
  {
    forall x ensures x in DigestsOf(rows) <==> exists i :: 0 <= i < |rows| && rows[i].digest == x {
      DigestsMeaning(rows, x);
    }
  }

  /** The entry has an expiry, and it has come. */
  ghost predicate Outlived(e: Entry, now: int) {
    exists t :: e.expiresAt == Some(t) && t <= now
  }

  /** The entry is to be validated again, and its last validation is longer ago than it allows. */
  ghost predicate Overdue(e: Entry, now: int) {
    exists t, span :: e.validatedAt == Some(t) && e.revalidateAfter == Some(span) && span < now - t
  }

  ghost predicate Disputed(e: Entry) {
    exists row :: row in e.evidence && !row.supporting
  }

  ghost predicate Cites(e: Entry, digest: Digest) {
    exists row :: row in e.evidence && row.digest == digest && row.supporting
  }

  lemma AgeMeaning(e: Entry, now: int)
    ensures IsExpired(e, now) <==> Outlived(e, now)
    ensures IsStale(e, now) <==> Overdue(e, now)
    ensures IsContradicted(e) <==> Disputed(e)
  {
    if IsExpired(e, now) {
      assert e.expiresAt == Some(e.expiresAt.value);
    }
    if IsStale(e, now) {
      assert e.validatedAt == Some(e.validatedAt.value) && e.revalidateAfter == Some(e.revalidateAfter.value);
    }
    if IsContradicted(e) {
      var i :| 0 <= i < |e.evidence| && !e.evidence[i].supporting;
      assert e.evidence[i] in e.evidence;
    }
    if Disputed(e) {
      var row :| row in e.evidence && !row.supporting;
      var i :| 0 <= i < |e.evidence| && e.evidence[i] == row;
    }
  }

  lemma CitesMeaning(e: Entry, digest: Digest)
    ensures RestsOn(e, digest) <==> Cites(e, digest)
  {
    if RestsOn(e, digest) {
      var i :| 0 <= i < |e.evidence| && e.evidence[i].digest == digest && e.evidence[i].supporting;
      assert e.evidence[i] in e.evidence;
    }
    if Cites(e, digest) {
      var row :| row in e.evidence && row.digest == digest && row.supporting;
      var i :| 0 <= i < |e.evidence| && e.evidence[i] == row;
    }
  }

  // ----- the store -----

  /** Entries by identifier; every operation yields a new store. */
  type Store = map<Id, Entry>

  ghost predicate ValidStore(store: Store) {
    && |store| <= MAX_ENTRIES
    && (forall id :: id in store ==> store[id].content.id == id)
    && (forall id {:trigger ValidEntry(store[id])} :: id in store ==> ValidEntry(store[id]))
  }

  /** What any operation may do to an entry: add events and evidence, and only while it is not terminal. */
  predicate Grew(was: Entry, now: Entry) {
    && now.content == was.content
    && was.history <= now.history && was.evidence <= now.evidence
    && (Terminal(was.state) ==> now == was)
  }

  ghost predicate Evolved(was: Store, now: Store) {
    forall id :: id in was ==> id in now && Grew(was[id], now[id])
  }

  /** Whatever is active was active before, under the same decision. */
  ghost predicate ActivatesNothing(was: Store, now: Store) {
    forall id :: id in now && now[id].state == Active ==>
      id in was && was[id].state == Active && was[id].activation == now[id].activation
  }

  lemma EvolvedTransitive(a: Store, b: Store, c: Store)
    requires Evolved(a, b) && Evolved(b, c)
    ensures Evolved(a, c)
    ensures ActivatesNothing(a, b) && ActivatesNothing(b, c) ==> ActivatesNothing(a, c)
  {
    forall id | id in a ensures id in c && Grew(a[id], c[id]) {
      assert Grew(a[id], b[id]) && Grew(b[id], c[id]);
    }
  }

  lemma ExtendedGrew(e: Entry, m: Entry, kind: Kind, at: int, reason: Option<Reason>)
    requires !Terminal(e.state) && m.content == e.content && m.history == e.history && e.evidence <= m.evidence
    ensures Grew(e, Extended(m, kind, at, reason))
  {
  }

  lemma ReplacedIsValid(store: Store, id: Id, e: Entry)
    requires ValidStore(store) && id in store && e.content == store[id].content && ValidEntry(e)
    ensures ValidStore(store[id := e])
  {
    var next := store[id := e];
    assert next.Keys == store.Keys && |next.Keys| == |next|;
    forall k | k in next ensures ValidEntry(next[k]) {
      assert k != id ==> ValidEntry(store[k]);
    }
  }

  lemma ReplacedEvolves(store: Store, id: Id, e: Entry)
    requires id in store && Grew(store[id], e)
    ensures Evolved(store, store[id := e])
  {
  }

  lemma ReplacedActivatesNothing(store: Store, id: Id, e: Entry)
    requires id in store
    requires e.state == Active ==> store[id].state == Active && e.activation == store[id].activation
    ensures ActivatesNothing(store, store[id := e])
  {
  }

  lemma AddedIsValid(store: Store, id: Id, e: Entry)
    requires ValidStore(store) && id !in store && |store| < MAX_ENTRIES && e.content.id == id && ValidEntry(e)
    ensures ValidStore(store[id := e])
  {
    var next := store[id := e];
    assert next.Keys == store.Keys + {id} && |next.Keys| == |next|;
    forall k | k in next ensures ValidEntry(next[k]) {
      assert k != id ==> ValidEntry(store[k]);
    }
  }

  lemma AddedEvolves(store: Store, id: Id, e: Entry)
    requires id !in store && e.state != Active
    ensures Evolved(store, store[id := e]) && ActivatesNothing(store, store[id := e])
  {
  }

  /** What keeps an event from following; the terminal states come first. */
  function EventRefusal(e: Entry, kind: Kind, at: int): (r: Option<Error>)
    ensures r.None? <==> Timely(e, kind, at)
    ensures Terminal(e.state) ==> r == Some(TerminalEntry)
  {
    if Terminal(e.state) then Some(TerminalEntry)
    else if !Allowed(kind, Some(e.state)) then Some(InvalidTransition)
    else if !IsTick(at) || at < LastTick(e) then Some(TimeRegression)
    else if !Reasoned(kind) && |e.history| >= MAX_HISTORY - TERMINAL_HEADROOM then Some(HistoryFull)
    else None
  }

  /** Replace an entry by its successor, after the checks every change shares. */
  method Change(store: Store, id: Id, mutated: Entry, kind: Kind, at: int, reason: Option<Reason>)
    returns (r: Wrappers.Result<Store, Error>)
    requires ValidStore(store)
    requires id in store ==>
      mutated.content == store[id].content && mutated.history == store[id].history && mutated.state == store[id].state
      && store[id].evidence <= mutated.evidence
    ensures r.Ok? <==> id in store && Timely(store[id], kind, at) && ValidEntry(Extended(mutated, kind, at, reason))
    ensures r.Ok? ==> r.value == store[id := Extended(mutated, kind, at, reason)]
    ensures r.Ok? ==> ValidStore(r.value) && Evolved(store, r.value)
    ensures id !in store ==> r == Err(UnknownEntry)
    ensures id in store && Terminal(store[id].state) ==> r == Err(TerminalEntry)
  {
    if id !in store { return Err(UnknownEntry); }
    var e := store[id];
    var refusal := EventRefusal(e, kind, at);
    if refusal.Some? { return Err(refusal.value); }
    var next := Extended(mutated, kind, at, reason);
    var ok := ValidateEntry(next);
    if !ok { return Err(InvalidEntry); }
    ReplacedIsValid(store, id, next);
    ExtendedGrew(e, mutated, kind, at, reason);
    ReplacedEvolves(store, id, next);
    r := Ok(store[id := next]);
  }

  datatype Proposal = Proposal(
    content: Content, evidence: seq<Row>, expiresAt: Option<int>, revalidateAfter: Option<int>)

  function Quarantine(p: Proposal, at: int): Entry {
    Entry(p.content, p.evidence, p.expiresAt, p.revalidateAfter, Quarantined, None, None,
          [Event(0, Generating, None, Some(Proposed), at, None),
           Event(1, Screening, Some(Proposed), Some(Quarantined), at, None)])
  }

  predicate Admissible(p: Proposal, at: int) {
    FieldsOk(Quarantine(p, at)) && IsTick(at) && p.content.generatedAt <= at && EvidenceOk(p.evidence, at)
  }

  /** A proposal a store admits: screened text, identifiers in form, and up to sixteen different pieces of evidence,
      none of them observed later than now. */
  ghost predicate Presentable(p: Proposal, at: int) {
    && p.content.plain && IsId(p.content.applicability.domain) && IsId(p.content.applicability.host)
    && IsId(p.content.producer) && 0 <= p.content.generatedAt <= at < 1_099_511_627_776
    && (forall t :: p.expiresAt == Some(t) ==> 0 <= t < 1_099_511_627_776)
    && (forall span :: p.revalidateAfter == Some(span) ==> 1 <= span < 1_099_511_627_776)
    && 1 <= |p.evidence| <= 16
    && (forall i, j :: 0 <= i < j < |p.evidence| ==> p.evidence[i].digest != p.evidence[j].digest)
    && forall i :: 0 <= i < |p.evidence| ==> 0 <= p.evidence[i].observedAt <= at
  }

  lemma AdmissibleMeaning(p: Proposal, at: int)
    ensures Admissible(p, at) <==> Presentable(p, at)
  {
    if p.expiresAt.Some? {
      assert p.expiresAt == Some(p.expiresAt.value);
    }
    if p.revalidateAfter.Some? {
      assert p.revalidateAfter == Some(p.revalidateAfter.value);
    }
  }

  lemma QuarantineIsValid(p: Proposal, at: int)
    ensures ValidEntry(Quarantine(p, at)) <==> Admissible(p, at)
  {
    var h := Quarantine(p, at).history;
    assert h[..2] == h && h[..1] == [h[0]] && h[..1][..0] == [];
    assert Replay(h[..0]) == At(None, 0);
    assert Replay(h[..1]) == Advance(Replay(h[..0]), 0, h[0]);
    assert Replay(h) == Advance(Replay(h[..1]), 1, h[1]);
    var kinds := {Validating, Revalidating};
    assert LastOf(h[..0], kinds) == None;
    assert LastOf(h[..1], kinds) == LastOf(h[..0], kinds);
    assert LastOf(h, kinds) == LastOf(h[..1], kinds);
  }

  /** Admit a generated lesson, which starts in quarantine whatever the proposal says. */
  method Add(store: Store, p: Proposal, at: int) returns (r: Wrappers.Result<Store, Error>)
    requires ValidStore(store)
    ensures r.Ok? <==> |store| < 128 && p.content.id !in store && Presentable(p, at)
    ensures r.Ok? ==>
      r.value == store[p.content.id := Entry(
        p.content, p.evidence, p.expiresAt, p.revalidateAfter, Quarantined, None, None,
        [Event(0, Generating, None, Some(Proposed), at, None),
         Event(1, Screening, Some(Proposed), Some(Quarantined), at, None)])]
    ensures r.Ok? ==> ValidStore(r.value) && Evolved(store, r.value) && ActivatesNothing(store, r.value)
  {
    if |store| >= MAX_ENTRIES { return Err(StoreFull); }
    if p.content.id in store { return Err(DuplicateEntry); }
    QuarantineIsValid(p, at);
    AdmissibleMeaning(p, at);
    var ok := ValidateEntry(Quarantine(p, at));
    if !ok { return Err(InvalidEntry); }
    AddedIsValid(store, p.content.id, Quarantine(p, at));
    AddedEvolves(store, p.content.id, Quarantine(p, at));
    r := Ok(store[p.content.id := Quarantine(p, at)]);
  }

  datatype Validation = Validation(wellFormed: bool, validator: string, evidence: Digest, passed: bool)

  /** A passed validation by somebody else than the producer, over evidence the entry does not rest on. */
  predicate Independent(e: Entry, v: Validation) {
    v.wellFormed && IsId(v.validator) && v.passed
    && v.validator != e.content.producer && v.evidence !in DigestsOf(e.evidence)
  }

  /** Automated validation, or revalidation later on; neither ever activates. */
  method Validate(store: Store, id: Id, v: Validation, again: bool, at: int)
    returns (r: Wrappers.Result<Store, Error>)
    requires ValidStore(store)
    ensures r.Ok? <==>
      id in store && Vouches(v, store[id]) && MayFollow(store[id], if again then Revalidating else Validating, at)
    ensures r.Ok? ==>
      && id in r.value && r.value == store[id := r.value[id]]
      && Follows(store[id], r.value[id], if again then Revalidating else Validating, at, None)
      && r.value[id].validatedAt == Some(at) && r.value[id].evidence == store[id].evidence
      && r.value[id].activation == store[id].activation
    ensures r.Ok? ==> ValidStore(r.value) && Evolved(store, r.value) && ActivatesNothing(store, r.value)
  {
    if id in store {
      IndependentMeaning(store[id], v);
    }
    if !v.wellFormed || !IsId(v.validator) || !v.passed { return Err(InvalidValidation); }
    if id !in store { return Err(UnknownEntry); }
    var e := store[id];
    if v.validator == e.content.producer { return Err(ValidatorNotIndependent); }
    if v.evidence in DigestsOf(e.evidence) { return Err(ValidationNotIndependent); }
    var kind := if again then Revalidating else Validating;
    TimelyMeaning(e, kind, at);
    if Timely(e, kind, at) {
      ValidatingKeepsValid(e, kind, at);
    }
    r := Change(store, id, e.(validatedAt := Some(at)), kind, at, None);
    if r.Ok? {
      ExtendedFollows(e, e.(validatedAt := Some(at)), kind, at, None);
      ReplacedActivatesNothing(store, id, Extended(e.(validatedAt := Some(at)), kind, at, None));
    }
  }

  method AddEvidence(store: Store, id: Id, row: Row, at: int) returns (r: Wrappers.Result<Store, Error>)
    requires ValidStore(store)
    ensures r.Ok? <==>
      && id in store && MayFollow(store[id], AddingEvidence, at) && 0 <= row.observedAt <= at
      && |store[id].evidence| < 16 && !HeldBy({row.digest}, store[id].evidence)
    ensures r.Ok? ==>
      && id in r.value && r.value == store[id := r.value[id]]
      && Follows(store[id], r.value[id], AddingEvidence, at, None)
      && r.value[id].evidence == store[id].evidence + [row]
      && r.value[id].validatedAt == store[id].validatedAt && r.value[id].activation == store[id].activation
    ensures r.Ok? ==> ValidStore(r.value) && Evolved(store, r.value) && ActivatesNothing(store, r.value)
  {
    if id !in store { return Err(UnknownEntry); }
    var e := store[id];
    TimelyMeaning(e, AddingEvidence, at);
    if Timely(e, AddingEvidence, at) {
      NewRowMeaning(e, row, at);
      EvidenceKeepsValid(e, row, at);
    }
    r := Change(store, id, e.(evidence := e.evidence + [row]), AddingEvidence, at, None);
    if r.Ok? {
      ExtendedFollows(e, e.(evidence := e.evidence + [row]), AddingEvidence, at, None);
      ReplacedActivatesNothing(store, id, Extended(e.(evidence := e.evidence + [row]), AddingEvidence, at, None));
    }
  }

  predicate IsContradicted(e: Entry) {
    exists i :: 0 <= i < |e.evidence| && !e.evidence[i].supporting
  }

  predicate IsStale(e: Entry, now: int) {
    e.revalidateAfter.Some? && e.validatedAt.Some? && now > e.validatedAt.value + e.revalidateAfter.value
  }

  predicate IsExpired(e: Entry, now: int) {
    e.expiresAt.Some? && now >= e.expiresAt.value
  }

  /** Activate a validated entry under a human decision over exactly its content and evidence. */
  method Activate(store: Store, id: Id, d: Decision, at: int) returns (r: Wrappers.Result<Store, Error>)
    requires ValidStore(store)
    ensures r.Ok? <==>
      && id in store && MayFollow(store[id], Activating, at)
      && !Disputed(store[id]) && !Outlived(store[id], at) && !Overdue(store[id], at)
      && IsApproval(d, store[id].content) && CoversAll(d.evidence, store[id].evidence) && d.decidedAt == at
    ensures r.Ok? ==>
      && id in r.value && r.value == store[id := r.value[id]]
      && Follows(store[id], r.value[id], Activating, at, Some(Sealed(d)))
      && r.value[id].activation == Some(d) && r.value[id].evidence == store[id].evidence
      && r.value[id].validatedAt == store[id].validatedAt
    ensures r.Ok? ==> ValidStore(r.value) && Evolved(store, r.value)
    ensures r.Ok? ==> ActivatesNothing(store, r.value - {id}) && r.value[id].state == Active
  {
    if id !in store { return Err(UnknownEntry); }
    var e := store[id];
    TimelyMeaning(e, Activating, at);
    AgeMeaning(e, at);
    ApprovalMeaning(d, e.content, e.evidence);
    if e.state != Validated { return Err(InvalidTransition); }
    if IsContradicted(e) { return Err(Contradicted); }
    if IsExpired(e, at) { return Err(PastExpiry); }
    if IsStale(e, at) { return Err(StaleRevalidation); }
    if !IsTick(at) { return Err(InvalidEntry); }
    if !Approves(d, e.content, DigestsOf(e.evidence), true) { return Err(DecisionRefused); }
    if d.decidedAt != at { return Err(DecisionTimeMismatch); }
    if Timely(e, Activating, at) {
      ActivatingKeepsValid(e, d, at);
    }
    r := Change(store, id, e.(activation := Some(d)), Activating, at, Some(Sealed(d)));
    if r.Ok? {
      ExtendedFollows(e, e.(activation := Some(d)), Activating, at, Some(Sealed(d)));
    }
  }

  /** The entry may take this event, and there is room left for it. */
  ghost predicate CanLeave(store: Store, id: Id, kind: Kind, at: int, name: string)
    requires id in store
  {
    MayFollow(store[id], kind, at) && IsId(name)
  }

  /** Withdraw to validated, revoke for good, or expire. */
  method Leave(store: Store, id: Id, kind: Kind, at: int, name: string) returns (r: Wrappers.Result<Store, Error>)
    requires ValidStore(store) && (kind == RollingBack || kind == Revoking || kind == Expiring)
    ensures r.Ok? <==> id in store && CanLeave(store, id, kind, at, name)
    ensures r.Ok? ==> r.value == store[id := Extended(store[id], kind, at, Some(Named(name)))]
    ensures r.Ok? ==>
      && Follows(store[id], r.value[id], kind, at, Some(Named(name)))
      && r.value[id].activation == None && r.value[id].evidence == store[id].evidence
      && r.value[id].validatedAt == store[id].validatedAt
    ensures r.Ok? ==> ValidStore(r.value) && Evolved(store, r.value) && ActivatesNothing(store, r.value)
  {
    if id !in store { return Err(UnknownEntry); }
    var e := store[id];
    TimelyMeaning(e, kind, at);
    if Timely(e, kind, at) {
      LeavingKeepsValid(e, kind, at, name);
    }
    r := Change(store, id, e, kind, at, Some(Named(name)));
    if r.Ok? {
      ExtendedFollows(e, e, kind, at, Some(Named(name)));
      ReplacedActivatesNothing(store, id, Extended(e, kind, at, Some(Named(name))));
    }
  }

  // ----- withdrawal in bulk -----

  function LeftAlso(store: Store, left: set<Id>, kind: Kind, at: int, name: string): (r: Store)
    ensures r.Keys == store.Keys
  {
    map id | id in store :: if id in left then Extended(store[id], kind, at, Some(Named(name))) else store[id]
  }

  ghost predicate AllCanLeave(store: Store, ids: set<Id>, kind: Kind, at: int, name: string)
    requires ids <= store.Keys
  {
    forall id :: id in ids ==> CanLeave(store, id, kind, at, name)
  }

  method LeaveNext(
    ghost store: Store, now: Store, order: seq<Id>, i: nat, kind: Kind, at: int, name: string)
    returns (r: Wrappers.Result<Store, Error>)
    requires ValidStore(now) && (kind == Revoking || kind == Expiring)
    requires Distinct(order) && Elements(order) <= store.Keys && i < |order|
    requires now == LeftAlso(store, Elements(order[..i]), kind, at, name)
    ensures order[i] in store && (r.Ok? <==> CanLeave(store, order[i], kind, at, name))
    ensures r.Ok? ==> ValidStore(r.value) && r.value == LeftAlso(store, Elements(order[..i + 1]), kind, at, name)
  {
    TakeNext(store, order, i);
    OneMoreLeft(store, Elements(order[..i]), order[i], kind, at, name);
    r := Leave(now, order[i], kind, at, name);
  }

  lemma AllButOne(store: Store, order: seq<Id>, i: nat, kind: Kind, at: int, name: string)
    requires Distinct(order) && Elements(order) <= store.Keys && i < |order|
    requires AllCanLeave(store, Elements(order[..i]), kind, at, name)
    ensures order[i] in store && Elements(order[..i + 1]) <= store.Keys
    ensures CanLeave(store, order[i], kind, at, name) ==> AllCanLeave(store, Elements(order[..i + 1]), kind, at, name)
    ensures !CanLeave(store, order[i], kind, at, name) ==> !AllCanLeave(store, Elements(order), kind, at, name)
  {
    TakeNext(store, order, i);
    assert order[i] in Elements(order);
  }

  /** The chosen entries leave one by one, or the store stays as it was. */
  method LeaveAll(store: Store, chosen: set<Id>, kind: Kind, at: int, name: string)
    returns (r: Wrappers.Result<Store, Error>)
    requires ValidStore(store) && chosen <= store.Keys && (kind == Revoking || kind == Expiring)
    ensures r.Ok? <==> AllCanLeave(store, chosen, kind, at, name)
    ensures r.Ok? ==> r.value == LeftAlso(store, chosen, kind, at, name) && ValidStore(r.value)
  {
    var order, now := Sorted(chosen), store;
    SortedElements(chosen);
    NobodyLeft(store, order, kind, at, name);
    for i := 0 to |order|
      invariant ValidStore(now)
      invariant now == LeftAlso(store, Elements(order[..i]), kind, at, name)
      invariant AllCanLeave(store, Elements(order[..i]), kind, at, name)
    {
      var left := LeaveNext(store, now, order, i, kind, at, name);
      AllButOne(store, order, i, kind, at, name);
      if left.Err? {
        return Err(left.error);
      }
      now := left.value;
    }
    TakeAll(order);
    r := Ok(now);
  }

  lemma LeftAlsoEvolves(store: Store, left: set<Id>, kind: Kind, at: int, name: string)
    requires left <= store.Keys && (kind == Revoking || kind == Expiring)
    requires AllCanLeave(store, left, kind, at, name)
    ensures Evolved(store, LeftAlso(store, left, kind, at, name))
    ensures ActivatesNothing(store, LeftAlso(store, left, kind, at, name))
  {
    forall id | id in store
      ensures Grew(store[id], LeftAlso(store, left, kind, at, name)[id])
    {
      if id in left {
        assert CanLeave(store, id, kind, at, name);
        AllowedMeaning(kind, store[id].state);
        ExtendedGrew(store[id], store[id], kind, at, Some(Named(name)));
      }
    }
  }

  lemma OneMoreLeft(store: Store, left: set<Id>, id: Id, kind: Kind, at: int, name: string)
    requires id in store && id !in left
    ensures var now := LeftAlso(store, left, kind, at, name);
      now[id] == store[id]
      && now[id := Extended(now[id], kind, at, Some(Named(name)))] == LeftAlso(store, left + {id}, kind, at, name)
  {
  }

  lemma NobodyLeft(store: Store, order: seq<Id>, kind: Kind, at: int, name: string)
    ensures Elements(order[..0]) == {} && LeftAlso(store, {}, kind, at, name) == store
  {
  }

  lemma TakeAll(order: seq<Id>)
    ensures Elements(order[..|order|]) == Elements(order)
  {
    assert order[..|order|] == order;
  }

  lemma TakeNext(store: Store, order: seq<Id>, i: nat)
    requires Distinct(order) && Elements(order) <= store.Keys && i < |order|
    ensures order[i] in store && order[i] !in Elements(order[..i])
    ensures Elements(order[..i + 1]) == Elements(order[..i]) + {order[i]}
  {
    assert order[i] in Elements(order);
    assert order[..i + 1] == order[..i] + [order[i]];
  }

  predicate RestsOn(e: Entry, digest: Digest) {
    exists i :: 0 <= i < |e.evidence| && e.evidence[i].digest == digest && e.evidence[i].supporting
  }

  /** A live entry that is hit leaves by one event; any other is as it was. */
  ghost predicate Withdrawn(was: Entry, now: Entry, kind: Kind, at: int, name: string, hit: bool) {
    match was.state
    case Revoked => now == was
    case Expired => now == was
    case _ => if hit then Follows(was, now, kind, at, Some(Named(name))) else now == was
  }

  /** What is still live was not hit, and is as it was. */
  lemma LiveIsUntouched(was: Entry, now: Entry, kind: Kind, at: int, name: string, hit: bool)
    requires Withdrawn(was, now, kind, at, name, hit) && (kind == Revoking || kind == Expiring)
    ensures now.state !in {Revoked, State.Expired} ==> now == was && !hit
  {
  }

  /** An entry of the store after the chosen ones left, where those that are hit and live were chosen. */
  lemma LeftIsWithdrawn(store: Store, left: set<Id>, kind: Kind, at: int, name: string, id: Id, hit: bool)
    requires left <= store.Keys && (kind == Revoking || kind == Expiring) && id in store
    requires AllCanLeave(store, left, kind, at, name)
    requires id in left <==> hit && !Terminal(store[id].state)
    ensures Withdrawn(store[id], LeftAlso(store, left, kind, at, name)[id], kind, at, name, hit)
  {
    if id in left {
      assert CanLeave(store, id, kind, at, name);
      AllowedMeaning(kind, store[id].state);
      ExtendedFollows(store[id], store[id], kind, at, Some(Named(name)));
    }
  }

  /** Revoke every live entry that rests on this evidence: afterwards no live entry does. */
  method RevokeEvidence(store: Store, digest: Digest, at: int, name: string)
    returns (r: Wrappers.Result<Store, Error>)
    requires ValidStore(store)
    ensures r.Ok? ==> ValidStore(r.value) && Evolved(store, r.value) && ActivatesNothing(store, r.value)
    ensures r.Ok? ==> r.value.Keys == store.Keys
    ensures r.Ok? ==> forall id :: id in store ==>
      Withdrawn(store[id], r.value[id], Revoking, at, name, Cites(store[id], digest))
    ensures r.Ok? ==> forall id :: id in store && Cites(r.value[id], digest) ==>
      r.value[id].state in {Revoked, State.Expired}
    ensures r.Ok? <==>
      forall id :: id in store && store[id].state !in {Revoked, State.Expired} && Cites(store[id], digest) ==>
        CanLeave(store, id, Revoking, at, name)
  {
    forall id | id in store ensures RestsOn(store[id], digest) <==> Cites(store[id], digest) {
      CitesMeaning(store[id], digest);
    }
    var cited := set id | id in store && RestsOn(store[id], digest) && !Terminal(store[id].state);
    r := LeaveAll(store, cited, Revoking, at, name);
    if r.Ok? {
      LeftAlsoEvolves(store, cited, Revoking, at, name);
      forall id | id in store
        ensures Withdrawn(store[id], r.value[id], Revoking, at, name, Cites(store[id], digest))
        ensures Cites(r.value[id], digest) ==> r.value[id].state in {Revoked, State.Expired}
      {
        var hit := Cites(store[id], digest);
        LeftIsWithdrawn(store, cited, Revoking, at, name, id, hit);
        LiveIsUntouched(store[id], r.value[id], Revoking, at, name, hit);
      }
    }
  }

  /** Expire every live entry past its time: afterwards no live entry is. */
  method Sweep(store: Store, now: int) returns (r: Wrappers.Result<Store, Error>)
    requires ValidStore(store)
    ensures r.Ok? ==> ValidStore(r.value) && Evolved(store, r.value) && ActivatesNothing(store, r.value)
    ensures r.Ok? ==> r.value.Keys == store.Keys
    ensures r.Ok? ==> forall id :: id in store ==>
      Withdrawn(store[id], r.value[id], Expiring, now, "expired", Outlived(store[id], now))
    ensures r.Ok? ==> forall id :: id in store && Outlived(r.value[id], now) ==>
      r.value[id].state in {Revoked, State.Expired}
    ensures r.Ok? <==> (
      && 0 <= now < 1_099_511_627_776
      && forall id :: id in store && store[id].state !in {Revoked, State.Expired} && Outlived(store[id], now) ==>
           CanLeave(store, id, Expiring, now, "expired"))
  {
    forall id | id in store ensures IsExpired(store[id], now) <==> Outlived(store[id], now) {
      AgeMeaning(store[id], now);
    }
    if !IsTick(now) { return Err(InvalidEntry); }
    var past := set id | id in store && !Terminal(store[id].state) && IsExpired(store[id], now);
    r := LeaveAll(store, past, Expiring, now, "expired");
    if r.Ok? {
      LeftAlsoEvolves(store, past, Expiring, now, "expired");
      forall id | id in store
        ensures Withdrawn(store[id], r.value[id], Expiring, now, "expired", Outlived(store[id], now))
        ensures Outlived(r.value[id], now) ==> r.value[id].state in {Revoked, State.Expired}
      {
        var hit := Outlived(store[id], now);
        LeftIsWithdrawn(store, past, Expiring, now, "expired", id, hit);
        LiveIsUntouched(store[id], r.value[id], Expiring, now, "expired", hit);
      }
    }
  }

  // ----- the online query -----

  datatype Context = Context(start: int, applicability: Applicability)

  datatype Exclusion =
    | Ended(state: State) | NotActive | FutureState | TooOld | Unvalidated | Mismatched | Contested

  function ExclusionOf(e: Entry, c: Context): Option<Exclusion> {
    if Terminal(e.state) then Some(Ended(e.state))
    else if e.state != Active then Some(NotActive)
    else if LastTick(e) >= c.start then Some(FutureState)
    else if IsExpired(e, c.start) then Some(TooOld)
    else if IsStale(e, c.start) then Some(Unvalidated)
    else if e.content.applicability != c.applicability then Some(Mismatched)
    else if IsContradicted(e) then Some(Contested)
    else None
  }

  /** Nothing keeps the lesson from a job that starts then and there. */
  ghost predicate Serves(e: Entry, c: Context) {
    && e.state == Active && e.content.applicability == c.applicability
    && (forall k :: 0 <= k < |e.history| ==> e.history[k].at < c.start)
    && !Outlived(e, c.start) && !Overdue(e, c.start) && !Disputed(e)
  }

  /** The entry is kept from the job for this reason, and for none that is asked before it. */
  ghost predicate KeptBack(e: Entry, c: Context, x: Exclusion) {
    match x
    case Ended(s) => e.state == s && s in {Revoked, State.Expired}
    case NotActive => e.state in {Proposed, Quarantined, Validated}
    case FutureState => e.state == Active && exists k :: 0 <= k < |e.history| && e.history[k].at >= c.start
    case TooOld => Known(e, c) && Outlived(e, c.start)
    case Unvalidated => Known(e, c) && !Outlived(e, c.start) && Overdue(e, c.start)
    case Mismatched => InDate(e, c) && e.content.applicability != c.applicability
    case Contested => InDate(e, c) && e.content.applicability == c.applicability && Disputed(e)
  }

  ghost predicate Known(e: Entry, c: Context) {
    e.state == Active && forall k :: 0 <= k < |e.history| ==> e.history[k].at < c.start
  }

  ghost predicate InDate(e: Entry, c: Context) {
    Known(e, c) && !Outlived(e, c.start) && !Overdue(e, c.start)
  }

  lemma KnownMeaning(e: Entry, c: Context)
    requires ValidEntry(e)
    ensures LastTick(e) >= c.start <==> exists k :: 0 <= k < |e.history| && e.history[k].at >= c.start
  {
    HistoryRises(e.history);
    assert e.history[|e.history| - 1].at == LastTick(e);
  }

  /** A lesson is served exactly when nothing keeps it back, and otherwise excluded for the first reason that does. */
  lemma ExclusionMeaning(e: Entry, c: Context)
    requires ValidEntry(e)
    ensures ExclusionOf(e, c) == None <==> Serves(e, c)
    ensures forall x :: ExclusionOf(e, c) == Some(x) <==> KeptBack(e, c, x)
  {
    KnownMeaning(e, c);
    AgeMeaning(e, c.start);
    forall x ensures ExclusionOf(e, c) == Some(x) <==> KeptBack(e, c, x) {
      ReasonMeaning(e, c, x);
    }
  }

  lemma ReasonMeaning(e: Entry, c: Context, x: Exclusion)
    requires ValidEntry(e)
    ensures ExclusionOf(e, c) == Some(x) <==> KeptBack(e, c, x)
  {
    KnownMeaning(e, c);
    AgeMeaning(e, c.start);
  }

  /** A served lesson was recorded, evidenced and approved by a human before an agent job started, applies to
      exactly that job, and nothing contests it. */
  lemma ServedIsEarlier(e: Entry, c: Context)
    requires ValidEntry(e) && Serves(e, c)
    ensures forall i :: 0 <= i < |e.history| ==> e.history[i].at < c.start
    ensures forall i :: 0 <= i < |e.evidence| ==> e.evidence[i].observedAt < c.start && e.evidence[i].supporting
    ensures e.content.generatedAt < c.start && e.content.applicability == c.applicability
    ensures e.activation.Some? && e.activation.value.decidedAt < c.start
    ensures IsApproval(e.activation.value, e.content) && HeldBy(e.activation.value.evidence, e.evidence)
  {
    HistoryRises(e.history);
    AgeMeaning(e, c.start);
    ApprovalMeaning(e.activation.value, e.content, e.evidence);
    LastOfIsMember(e.history, {Activating});
  }

  lemma {:induction false} LastOfIsMember(history: seq<Event>, kinds: set<Kind>)
    requires LastOf(history, kinds).Some?
    ensures LastOf(history, kinds).value in history && LastOf(history, kinds).value.kind in kinds
    decreases |history|
  {
    if history[|history| - 1].kind !in kinds {
      LastOfIsMember(history[..|history| - 1], kinds);
    }
  }

  ghost predicate Accounted(
    store: Store, c: Context, seen: set<Id>, served: seq<Id>, excluded: seq<(Id, Exclusion)>)
    requires seen <= store.Keys
  {
    && (forall id :: id in served <==> id in seen && ExclusionOf(store[id], c) == None)
    && (forall p :: p in excluded <==> p.0 in seen && ExclusionOf(store[p.0], c) == Some(p.1))
  }

  lemma AccountOne(
    store: Store, c: Context, seen: set<Id>, served: seq<Id>, excluded: seq<(Id, Exclusion)>, id: Id)
    requires seen <= store.Keys && id in store && Accounted(store, c, seen, served, excluded)
    ensures match ExclusionOf(store[id], c)
      case None => Accounted(store, c, seen + {id}, served + [id], excluded)
      case Some(reason) => Accounted(store, c, seen + {id}, served, excluded + [(id, reason)])
  {
  }

  /** Serve the lessons that nothing excludes, and account for every other entry. */
  method Query(store: Store, c: Context) returns (served: seq<Id>, excluded: seq<(Id, Exclusion)>)
    ensures forall id :: id in served <==> id in store && ExclusionOf(store[id], c) == None
    ensures forall p :: p in excluded <==> p.0 in store && ExclusionOf(store[p.0], c) == Some(p.1)
    ensures |served| + |excluded| == |store|
    ensures ValidStore(store) ==> forall id :: id in served <==> id in store && Serves(store[id], c)
    ensures ValidStore(store) ==> forall p :: p in excluded <==> p.0 in store && KeptBack(store[p.0], c, p.1)
  {
    served, excluded := [], [];
    var order := Sorted(store.Keys);
    SortedElements(store.Keys);
    for i := 0 to |order|
      invariant Accounted(store, c, Elements(order[..i]), served, excluded)
      invariant |served| + |excluded| == i
    {
      var id := order[i];
      TakeNext(store, order, i);
      AccountOne(store, c, Elements(order[..i]), served, excluded, id);
      var reason := ExclusionOf(store[id], c);
      if reason.Some? {
        excluded := excluded + [(id, reason.value)];
      } else {
        served := served + [id];
      }
    }
    TakeAll(order);
    DistinctLength(order);
    if ValidStore(store) {
      forall id | id in store
        ensures ExclusionOf(store[id], c) == None <==> Serves(store[id], c)
        ensures forall x :: ExclusionOf(store[id], c) == Some(x) <==> KeptBack(store[id], c, x)
      {
        assert ValidEntry(store[id]);
        ExclusionMeaning(store[id], c);
      }
    }
  }

  // ----- the headroom does not always suffice -----

  /** A lone validated entry without expiry or contest, as its proposal described it, at the given tick. */
  ghost predicate Standing(store: Store, p: Proposal, at: int, size: nat, state: State) {
    && p.content.id in store
    && var e := store[p.content.id];
    && e.content == p.content && e.evidence == p.evidence && e.expiresAt == None && e.revalidateAfter == None
    && e.state == state && |e.history| == size && LastTick(e) == at
  }

  method ActivateAgain(store: Store, p: Proposal, d: Decision, at: int, size: nat) returns (next: Store)
    requires ValidStore(store) && Standing(store, p, at, size, Validated) && IsTick(at) && size < MAX_HISTORY
    requires forall i :: 0 <= i < |p.evidence| ==> p.evidence[i].supporting
    requires IsApproval(d, p.content) && CoversAll(d.evidence, p.evidence) && d.decidedAt == at
    ensures ValidStore(next) && Standing(next, p, at, size + 1, Active)
  {
    TimelyMeaning(store[p.content.id], Activating, at);
    AgeMeaning(store[p.content.id], at);
    var r := Activate(store, p.content.id, d, at);
    next := r.value;
  }

  method RollBackAgain(store: Store, p: Proposal, at: int, size: nat, name: string) returns (next: Store)
    requires ValidStore(store) && Standing(store, p, at, size, Active) && IsTick(at) && size < MAX_HISTORY && IsId(name)
    ensures ValidStore(next) && Standing(next, p, at, size + 1, Validated)
  {
    TimelyMeaning(store[p.content.id], RollingBack, at);
    var r := Leave(store, p.content.id, RollingBack, at, name);
    next := r.value;
  }

  method AdmitAndValidate(p: Proposal, v: Validation, at: int) returns (store: Store)
    requires Presentable(p, at) && p.expiresAt == None && p.revalidateAfter == None && Vouches(v, Quarantine(p, at))
    ensures ValidStore(store) && Standing(store, p, at, 3, Validated)
  {
    var added := Add(map[], p, at);
    var e := added.value[p.content.id];
    assert Allowed(Validating, Some(e.state));
    TimelyMeaning(e, Validating, at);
    var validated := Validate(added.value, p.content.id, v, false, at);
    store := validated.value;
  }

  /** Activations are exempt from the early stop as well, so a history can fill up with them: the entry is
      active and can then neither be revoked nor rolled back. */
  method HistoryCanFill(p: Proposal, v: Validation, d: Decision, at: int, name: string)
    returns (store: Store, revoked: Wrappers.Result<Store, Error>, rolledBack: Wrappers.Result<Store, Error>)
    requires Presentable(p, at) && p.expiresAt == None && p.revalidateAfter == None && IsId(name)
    requires forall i :: 0 <= i < |p.evidence| ==> p.evidence[i].supporting
    requires Vouches(v, Quarantine(p, at))
    requires IsApproval(d, p.content) && CoversAll(d.evidence, p.evidence) && d.decidedAt == at
    ensures ValidStore(store) && Standing(store, p, at, MAX_HISTORY, Active)
    ensures revoked.Err? && rolledBack.Err?
  {
    store := AdmitAndValidate(p, v, at);
    for k := 0 to 30
      invariant ValidStore(store) && Standing(store, p, at, 3 + 2 * k, Validated)
    {
      store := ActivateAgain(store, p, d, at, 3 + 2 * k);
      store := RollBackAgain(store, p, at, 4 + 2 * k, name);
    }
    store := ActivateAgain(store, p, d, at, 63);
    revoked := Leave(store, p.content.id, Revoking, at, name);
    rolledBack := Leave(store, p.content.id, RollingBack, at, name);
  }
}
