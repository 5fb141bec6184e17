/** The journal of profile versions: an append-only list of events from which the active version, the versions
    that can be restored and the pending one are derived by replay. A digest stands for the content it names,
    so a profile is its own key. */
module Journal {
  import opened Wrappers
  import opened DependencyGraphs
  import opened Identifiers

  const MAX_JOURNAL := 256
  const MAX_PROFILES := 64
  const MAX_TICK := 0x100_0000_0000

  /** A validated profile; validated profiles have a positive version. */
  datatype ProfileRecord = Profile(name: string, version: nat, content: nat)
  type Profile = p: ProfileRecord | p.version >= 1 witness Profile("p", 1, 0)

  datatype Kind = Human | Agent | Model | Tool
  datatype Actor = Actor(kind: Kind, id: string)
  datatype Event = Begun | Committed | Aborted | RolledBack | Refused
  datatype Denial = AgentIdentity | AgentWritableSource
  datatype Reason = Unstated | Stated(id: string) | Denied(denial: Denial)

  datatype Entry = Entry(seqno: int, event: Event, subject: Option<Profile>, actor: Actor, at: int, reason: Reason)

  datatype Error =
    | InvalidJournal
    | VersionNotNewer
    | InvalidRegistry
    | JournalFull
    | InvalidTime
    | TimeRegression
    | InvalidActor
    | InvalidReason
    | TransactionPending
    | NoTransaction
    | NoActiveProfile
    | ConcurrentUpdate

  datatype State = State(active: Option<Profile>, previous: seq<Profile>, pending: Option<Profile>)

  predicate IsId(s: string) {
    IsIdentifierUpTo(s, 64)
  }

  predicate IsTick(at: int) {
    0 <= at < MAX_TICK
  }

  predicate ReasonOk(event: Event, reason: Reason) {
    match event
    case Refused => reason.Denied?
    case Aborted => reason.Stated? && IsId(reason.id)
    case RolledBack => reason.Stated? && IsId(reason.id)
    case _ => reason.Unstated?
  }

  // ----- replay -----

  /** Everything the replay carries from one event to the next. */
  datatype Scan = Scan(state: State, begun: set<Profile>, newest: map<string, nat>, last: int)

  const START := Scan(State(None, [], None), {}, map[], 0)

  function NewestOf(s: Scan, name: string): nat {
    if name in s.newest then s.newest[name] else 0
  }

  function Begin(profiles: set<Profile>, s: Scan, e: Entry): Result<Scan, Error> {
    if s.state.pending.Some? || e.subject.None? || e.subject.value !in profiles then Err(InvalidJournal) else
    var p := e.subject.value;
    if p.version <= NewestOf(s, p.name) then Err(VersionNotNewer) else
    Ok(Scan(s.state.(pending := Some(p)), s.begun + {p}, s.newest[p.name := p.version], e.at))
  }

  function Pop(previous: seq<Profile>): (Option<Profile>, seq<Profile>) {
    if previous == [] then (None, []) else (Some(previous[|previous| - 1]), previous[..|previous| - 1])
  }

  function RollBack(s: Scan, e: Entry): Result<Scan, Error> {
    if s.state.active.None? || e.subject != s.state.active then Err(InvalidJournal) else
    var (active, previous) := Pop(s.state.previous);
    Ok(s.(state := State(active, previous, s.state.pending), last := e.at))
  }

  function Push(state: State): seq<Profile> {
    state.previous + if state.active.Some? then [state.active.value] else []
  }

  function Settle(s: Scan, e: Entry): Result<Scan, Error> {
    if s.state.pending.None? || e.subject != s.state.pending then Err(InvalidJournal) else
    Ok(s.(last := e.at, state :=
      if e.event == Committed then State(s.state.pending, Push(s.state), None) else s.state.(pending := None)))
  }

  predicate EntryOk(s: Scan, index: nat, e: Entry) {
    && e.seqno == index && IsTick(e.at) && e.at >= s.last
    && IsId(e.actor.id) && ReasonOk(e.event, e.reason)
    && (e.event != Refused ==> e.actor.kind == Human)
  }

  function Advance(profiles: set<Profile>, s: Scan, index: nat, e: Entry): Result<Scan, Error> {
    if !EntryOk(s, index, e) then Err(InvalidJournal) else
    match e.event
    case Refused => Ok(s.(last := e.at))
    case Begun => Begin(profiles, s, e)
    case RolledBack => RollBack(s, e)
    case _ => Settle(s, e)
  }

  function Scanned(profiles: set<Profile>, journal: seq<Entry>): Result<Scan, Error> {
    if journal == [] then Ok(START) else
    var n := |journal| - 1;
    match Scanned(profiles, journal[..n])
    case Err(error) => Err(error)
    case Ok(s) => Advance(profiles, s, n, journal[n])
  }

  /** The state a journal derives; every profile it stores must have been begun. */
  function Replayed(profiles: set<Profile>, journal: seq<Entry>): Result<State, Error> {
    match Scanned(profiles, journal)
    case Err(error) => Err(error)
    case Ok(s) => if profiles == s.begun then Ok(s.state) else Err(InvalidRegistry)
  }

  /** A refused prefix refuses the whole journal with the same error. */
  lemma {:induction false} RefusedPrefix(profiles: set<Profile>, journal: seq<Entry>, k: nat)
    requires k <= |journal| && Scanned(profiles, journal[..k]).Err?
    ensures Scanned(profiles, journal) == Scanned(profiles, journal[..k])
    decreases |journal|
  {
    if k == |journal| {
      assert journal[..k] == journal;
    } else {
      var n := |journal| - 1;
      assert journal[..n][..k] == journal[..k];
      RefusedPrefix(profiles, journal[..n], k);
    }
  }

  method Replay(profiles: set<Profile>, journal: seq<Entry>) returns (r: Result<State, Error>)
    ensures r == Replayed(profiles, journal)
  {
    var s := START;
    for index := 0 to |journal|
      invariant Scanned(profiles, journal[..index]) == Ok(s)
    {
      var e := journal[index];
      assert journal[..index + 1][..index] == journal[..index];
      var next := Advance(profiles, s, index, e);
      if next.Err? {
        RefusedPrefix(profiles, journal, index + 1);
        return Err(next.error);
      }
      s := next.value;
    }
    assert journal[..|journal|] == journal;
    r := if profiles == s.begun then Ok(s.state) else Err(InvalidRegistry);
  }

  // ----- what every replayed journal keeps -----

  /** The versions that are active or can be restored, oldest first. */
  function Stack(state: State): seq<Profile> {
    Push(state)
  }

  ghost predicate Tracks(s: Scan) {
    && (forall p :: p in s.begun ==> p.version <= NewestOf(s, p.name))
    && (forall name :: name in s.newest ==> exists p :: p in s.begun && p.name == name && p.version == s.newest[name])
  }

  /** Nothing is restorable without an active version, and no version is activated twice. */
  ghost predicate Coherent(s: Scan) {
    && (s.state.active.None? ==> s.state.previous == [])
    && Distinct(Stack(s.state))
    && Elements(Stack(s.state)) <= s.begun
    && (s.state.pending.Some? ==> s.state.pending.value in s.begun && s.state.pending.value !in Stack(s.state))
  }

  lemma BeginKeeps(profiles: set<Profile>, s: Scan, e: Entry)
    requires Tracks(s) && Coherent(s) && Begin(profiles, s, e).Ok?
    ensures Tracks(Begin(profiles, s, e).value) && Coherent(Begin(profiles, s, e).value)
  {
    var t, p := Begin(profiles, s, e).value, e.subject.value;
    assert p !in s.begun;
    forall name | name in t.newest
      ensures exists q :: q in t.begun && q.name == name && q.version == t.newest[name]
    {
      if name == p.name {
        assert p in t.begun;
      } else {
        var q :| q in s.begun && q.name == name && q.version == s.newest[name];
        assert q in t.begun;
      }
    }
    assert Stack(t.state) == Stack(s.state);
    forall x | x in Stack(s.state) ensures x in s.begun {
      assert x in Elements(Stack(s.state));
    }
  }

  /** Rolling back takes the newest version off the stack. */
  lemma RollBackPops(s: Scan, e: Entry)
    requires Coherent(s) && RollBack(s, e).Ok?
    ensures var stack, rest := Stack(s.state), Stack(RollBack(s, e).value.state);
      |stack| > 0 && e.subject == Some(stack[|stack| - 1]) && rest == stack[..|stack| - 1]
    ensures Coherent(RollBack(s, e).value)
  {
    var t := RollBack(s, e).value;
    var stack := Stack(s.state);
    assert stack == s.state.previous + [s.state.active.value];
    assert Stack(t.state) == s.state.previous;
    assert forall x :: x in Stack(t.state) ==> x in stack && x in Elements(stack);
  }

  /** Committing puts the pending version on the stack; aborting leaves the stack alone. */
  lemma SettlePushes(s: Scan, e: Entry)
    requires Coherent(s) && Settle(s, e).Ok?
    ensures var stack, rest := Stack(s.state), Stack(Settle(s, e).value.state);
      rest == if e.event == Committed then stack + [s.state.pending.value] else stack
    ensures Coherent(Settle(s, e).value)
  {
    var t := Settle(s, e).value;
    var stack, p := Stack(s.state), s.state.pending.value;
    assert forall x :: x in Stack(t.state) ==> x == p || x in Elements(stack);
  }

  lemma AdvanceKeeps(profiles: set<Profile>, s: Scan, index: nat, e: Entry)
    requires Tracks(s) && Coherent(s) && Advance(profiles, s, index, e).Ok?
    ensures Tracks(Advance(profiles, s, index, e).value) && Coherent(Advance(profiles, s, index, e).value)
  {
    match e.event
    case Refused =>
    case Begun => BeginKeeps(profiles, s, e);
    case RolledBack => RollBackPops(s, e);
    case _ => SettlePushes(s, e);
  }

  lemma {:induction false} ScannedKeeps(profiles: set<Profile>, journal: seq<Entry>)
    requires Scanned(profiles, journal).Ok?
    ensures Tracks(Scanned(profiles, journal).value) && Coherent(Scanned(profiles, journal).value)
    ensures Scanned(profiles, journal).value.last == (if journal == [] then 0 else journal[|journal| - 1].at)
    decreases |journal|
  {
    if journal != [] {
      var n := |journal| - 1;
      ScannedKeeps(profiles, journal[..n]);
      AdvanceKeeps(profiles, Scanned(profiles, journal[..n]).value, n, journal[n]);
    }
  }

  /** Replay of a longer journal passes through the replay of each prefix. */
  lemma {:induction false} PrefixScanned(profiles: set<Profile>, journal: seq<Entry>, k: nat)
    requires k <= |journal| && Scanned(profiles, journal).Ok?
    ensures Scanned(profiles, journal[..k]).Ok?
    ensures Scanned(profiles, journal[..k]).value.begun <= Scanned(profiles, journal).value.begun
    ensures forall name ::
      NewestOf(Scanned(profiles, journal[..k]).value, name) <= NewestOf(Scanned(profiles, journal).value, name)
    decreases |journal|
  {
    if k == |journal| {
      assert journal[..k] == journal;
    } else {
      var n := |journal| - 1;
      assert journal[..n][..k] == journal[..k];
      PrefixScanned(profiles, journal[..n], k);
    }
  }

  /** The profile begun at position `k`, if an event begins one there. */
  predicate BeginsAt(journal: seq<Entry>, k: nat) {
    k < |journal| && journal[k].event == Begun && journal[k].subject.Some?
  }

  /** A version that begins is newer than every one before it, and is the newest from then on. */
  lemma BeginRaises(profiles: set<Profile>, journal: seq<Entry>, i: nat)
    requires BeginsAt(journal, i) && Scanned(profiles, journal[..i + 1]).Ok?
    ensures Scanned(profiles, journal[..i]).Ok?
    ensures var p := journal[i].subject.value;
      && NewestOf(Scanned(profiles, journal[..i]).value, p.name) < p.version
      && NewestOf(Scanned(profiles, journal[..i + 1]).value, p.name) == p.version
  {
    assert journal[..i + 1][..i] == journal[..i];
  }

  /** Versions strictly increase under each name. */
  lemma VersionsIncrease(profiles: set<Profile>, journal: seq<Entry>, i: nat, j: nat)
    requires Scanned(profiles, journal).Ok?
    requires i < j && BeginsAt(journal, i) && BeginsAt(journal, j)
    requires journal[i].subject.value.name == journal[j].subject.value.name
    ensures journal[i].subject.value.version < journal[j].subject.value.version
  {
    PrefixScanned(profiles, journal, j + 1);
    BeginRaises(profiles, journal, j);
    PrefixScanned(profiles, journal[..j], i + 1);
    assert journal[..j][..i + 1] == journal[..i + 1];
    BeginRaises(profiles, journal, i);
  }

  /** Profiles that no event mentions do not change the replay. */
  lemma {:induction false} MoreProfilesReplayAlike(few: set<Profile>, many: set<Profile>, journal: seq<Entry>)
    requires few <= many && Scanned(few, journal).Ok?
    ensures Scanned(many, journal) == Scanned(few, journal)
    decreases |journal|
  {
    if journal != [] {
      MoreProfilesReplayAlike(few, many, journal[..|journal| - 1]);
    }
  }

  lemma {:induction false} BegunAreStored(profiles: set<Profile>, journal: seq<Entry>)
    requires Scanned(profiles, journal).Ok?
    ensures Scanned(profiles, journal).value.begun <= profiles
    decreases |journal|
  {
    if journal != [] {
      BegunAreStored(profiles, journal[..|journal| - 1]);
    }
  }

  // ----- the operations -----

  datatype ProfileJournal = ProfileJournal(profiles: set<Profile>, journal: seq<Entry>, state: State)

  ghost predicate Valid(j: ProfileJournal) {
    && |j.profiles| <= MAX_PROFILES && |j.journal| <= 2 * MAX_JOURNAL
    && Replayed(j.profiles, j.journal) == Ok(j.state)
  }

  const EMPTY := ProfileJournal({}, [], State(None, [], None))

  function Opened(profiles: set<Profile>, journal: seq<Entry>): (r: Result<ProfileJournal, Error>)
    ensures r.Ok? ==> Valid(r.value)
  {
    if |profiles| > MAX_PROFILES || |journal| > 2 * MAX_JOURNAL then Err(InvalidRegistry) else
    match Replayed(profiles, journal)
    case Err(error) => Err(error)
    case Ok(state) => Ok(ProfileJournal(profiles, journal, state))
  }

  /** A journal is only ever built by replaying its events. */
  method Open(profiles: set<Profile>, journal: seq<Entry>) returns (r: Result<ProfileJournal, Error>)
    ensures r == Opened(profiles, journal)
  {
    if |profiles| > MAX_PROFILES || |journal| > 2 * MAX_JOURNAL { return Err(InvalidRegistry); }
    var state := Replay(profiles, journal);
    r := match state case Err(error) => Err(error) case Ok(s) => Ok(ProfileJournal(profiles, journal, s));
  }

  /** A requested change: who asks, when, and from which file, if any. */
  datatype Change = Change(kind: Kind, id: string, at: int, source: Option<string>)

  datatype Outcome = Outcome(journal: ProfileJournal, refusal: Option<Denial>)

  /** Only a human may change profiles, and only from a file that the operator owns. */
  function DenialOf(change: Change, owned: set<string>): Option<Denial> {
    if change.kind != Human then Some(AgentIdentity)
    else if change.source.Some? && change.source.value !in owned then Some(AgentWritableSource)
    else None
  }

  /** The change comes from a human and, if from a file at all, from one of the operator's. */
  ghost predicate MayAsk(change: Change, owned: set<string>) {
    change.kind == Human && forall path :: change.source == Some(path) ==> path in owned
  }

  /** Who is denied: whoever is not human, and a human whose file the operator does not own. */
  lemma DenialMeaning(change: Change, owned: set<string>)
    ensures DenialOf(change, owned) == None <==> MayAsk(change, owned)
    ensures DenialOf(change, owned) == Some(AgentIdentity) <==> change.kind != Human
    ensures DenialOf(change, owned) == Some(AgentWritableSource) <==>
      change.kind == Human && exists path :: change.source == Some(path) && path !in owned
  {
    if change.source.Some? {
      assert change.source == Some(change.source.value);
    }
  }

  function CountOf(journal: seq<Entry>, refused: bool): (n: nat)
    ensures n <= |journal|
  {
    if journal == [] then 0 else
    CountOf(journal[..|journal| - 1], refused)
      + if (journal[|journal| - 1].event == Refused) == refused then 1 else 0
  }

  function LastTick(journal: seq<Entry>): int {
    if journal == [] then 0 else journal[|journal| - 1].at
  }

  /** What keeps one more event of this kind from being recorded at this tick: the room for its kind, the clock, or
      the room for events in all. */
  function RoomFault(journal: seq<Entry>, refused: bool, at: int): Option<Error> {
    if CountOf(journal, refused) >= MAX_JOURNAL then Some(JournalFull)
    else if !IsTick(at) then Some(InvalidTime)
    else if at < LastTick(journal) then Some(TimeRegression)
    else if |journal| >= 2 * MAX_JOURNAL then Some(InvalidRegistry)
    else None
  }

  predicate Recordable(j: ProfileJournal, refused: bool, at: int) {
    RoomFault(j.journal, refused, at).None?
  }

  /** The places of the denials, or of the events that are none. */
  ghost function PlacesOf(journal: seq<Entry>, refused: bool): set<nat> {
    set k: nat | k < |journal| && (journal[k].event == Refused <==> refused)
  }

  lemma {:induction false} CountsPlaces(journal: seq<Entry>, refused: bool)
    ensures CountOf(journal, refused) == |PlacesOf(journal, refused)|
    decreases |journal|
  {
    if journal != [] {
      var n := |journal| - 1;
      CountsPlaces(journal[..n], refused);
      var here := if journal[n].event == Refused <==> refused then {n} else {};
      assert PlacesOf(journal, refused) == PlacesOf(journal[..n], refused) + here;
    }
  }

  lemma {:induction false} TicksRise(profiles: set<Profile>, journal: seq<Entry>)
    requires Scanned(profiles, journal).Ok?
    ensures forall k :: 0 <= k < |journal| ==> 0 <= journal[k].at <= LastTick(journal)
    decreases |journal|
  {
    if journal != [] {
      var n := |journal| - 1;
      TicksRise(profiles, journal[..n]);
      ScannedKeeps(profiles, journal[..n]);
    }
  }

  /** One more event has its place while there are fewer than 256 of its sort, at a tick before 2^40 that no event
      on record comes after. */
  lemma RoomMeaning(j: ProfileJournal, refused: bool, at: int)
    requires Valid(j)
    ensures Recordable(j, refused, at) <==>
      && |PlacesOf(j.journal, refused)| < 256 && |j.journal| < 512
      && 0 <= at < 1_099_511_627_776
      && forall k :: 0 <= k < |j.journal| ==> j.journal[k].at <= at
  {
    CountsPlaces(j.journal, refused);
    TicksRise(j.profiles, j.journal);
  }

  function NextEntry(
    j: ProfileJournal, event: Event, subject: Option<Profile>, change: Change, reason: Reason): Entry
  {
    Entry(|j.journal|, event, subject, Actor(change.kind, change.id), change.at, reason)
  }

  /** The profile a change adds to the stored ones. */
  function Stored(j: ProfileJournal, event: Event, subject: Option<Profile>): set<Profile> {
    if event == Begun && subject.Some? then j.profiles + {subject.value} else j.profiles
  }

  method Append(j: ProfileJournal, event: Event, subject: Option<Profile>, change: Change, reason: Reason)
    returns (r: Result<ProfileJournal, Error>)
    requires Valid(j)
    ensures r.Ok? ==> Recordable(j, event == Refused, change.at)
    ensures Recordable(j, event == Refused, change.at) ==>
      r == Opened(Stored(j, event, subject), j.journal + [NextEntry(j, event, subject, change, reason)])
    ensures !Recordable(j, event == Refused, change.at) ==>
      r == Err(RoomFault(j.journal, event == Refused, change.at).value)
  {
    ScannedKeeps(j.profiles, j.journal);
    if CountOf(j.journal, event == Refused) >= MAX_JOURNAL { return Err(JournalFull); }
    if !IsTick(change.at) { return Err(InvalidTime); }
    if j.journal != [] && change.at < j.journal[|j.journal| - 1].at { return Err(TimeRegression); }
    r := Open(Stored(j, event, subject), j.journal + [NextEntry(j, event, subject, change, reason)]);
  }

  /** Appending one event is one step of the replay. */
  lemma AppendIsOneStep(j: ProfileJournal, event: Event, subject: Option<Profile>, change: Change, reason: Reason)
    requires Valid(j)
    ensures var e := NextEntry(j, event, subject, change, reason);
      var profiles := Stored(j, event, subject);
      Scanned(j.profiles, j.journal).Ok?
      && Scanned(profiles, j.journal + [e])
         == Advance(profiles, Scanned(j.profiles, j.journal).value, |j.journal|, e)
  {
    var e, profiles := NextEntry(j, event, subject, change, reason), Stored(j, event, subject);
    assert (j.journal + [e])[..|j.journal|] == j.journal;
    MoreProfilesReplayAlike(j.profiles, profiles, j.journal);
  }

  lemma ScanFacts(j: ProfileJournal)
    requires Valid(j)
    ensures var s := Scanned(j.profiles, j.journal).value;
      s.state == j.state && s.begun == j.profiles && s.last == LastTick(j.journal)
  {
    ScannedKeeps(j.profiles, j.journal);
  }

  lemma RefusedAdvances(profiles: set<Profile>, s: Scan, index: nat, e: Entry)
    requires EntryOk(s, index, e) && e.event == Refused
    ensures Advance(profiles, s, index, e) == Ok(s.(last := e.at))
  {
  }

  /** A denied change is recorded and alters nothing else. */
  lemma DeniedIsRecorded(j: ProfileJournal, subject: Option<Profile>, change: Change, denial: Denial)
    requires Valid(j) && IsId(change.id) && Recordable(j, true, change.at)
    ensures var e := NextEntry(j, Refused, subject, change, Denied(denial));
      Opened(j.profiles, j.journal + [e]) == Ok(ProfileJournal(j.profiles, j.journal + [e], j.state))
  {
    ScanFacts(j);
    AppendIsOneStep(j, Refused, subject, change, Denied(denial));
    var e, s := NextEntry(j, Refused, subject, change, Denied(denial)), Scanned(j.profiles, j.journal).value;
    RefusedAdvances(j.profiles, s, |j.journal|, e);
  }

  /** A denied change ends in a record of the denial and in no other effect, or in the fault that leaves no room for
      the record. Neither depends on the state. */
  ghost predicate RecordsDenial(
    j: ProfileJournal, subject: Option<Profile>, change: Change, owned: set<string>, r: Result<Outcome, Error>)
  {
    MayAsk(change, owned) ||
    match RoomFault(j.journal, true, change.at)
    case Some(fault) => r == Err(fault)
    case None =>
      var denial := if change.kind != Human then AgentIdentity else AgentWritableSource;
      var e := Entry(
        |j.journal|, Refused, subject, Actor(change.kind, change.id), change.at, Denied(denial));
      r == Ok(Outcome(ProfileJournal(j.profiles, j.journal + [e], j.state), Some(denial)))
  }

  /** A permitted change ends in the journal with its event appended and replayed, or in what keeps it from that. */
  ghost predicate RecordsChange(
    j: ProfileJournal, event: Event, subject: Option<Profile>, change: Change, reason: Reason, r: Result<Outcome, Error>)
  {
    match RoomFault(j.journal, false, change.at)
    case Some(fault) => r == Err(fault)
    case None =>
      match Opened(Stored(j, event, subject), j.journal + [NextEntry(j, event, subject, change, reason)])
      case Err(error) => r == Err(error)
      case Ok(next) => r == Ok(Outcome(next, None))
  }

  /** Refuse a change recorded on behalf of somebody who may not ask, else record it. */
  method Act(
    j: ProfileJournal, event: Event, subject: Option<Profile>, change: Change, reason: Reason, owned: set<string>,
    holds: bool, otherwise: Error)
    returns (r: Result<Outcome, Error>)
    requires Valid(j) && event != Refused
    ensures r.Ok? ==> Valid(r.value.journal)
    ensures !IsId(change.id) ==> r == Err(InvalidActor)
    ensures IsId(change.id) && !ReasonOk(event, reason) ==> r == Err(InvalidReason)
    ensures IsId(change.id) && ReasonOk(event, reason) ==> RecordsDenial(j, subject, change, owned, r)
    ensures IsId(change.id) && ReasonOk(event, reason) && MayAsk(change, owned) && !holds ==>
      r == Err(otherwise)
    ensures IsId(change.id) && ReasonOk(event, reason) && MayAsk(change, owned) && holds ==>
      RecordsChange(j, event, subject, change, reason, r)
  {
    if !IsId(change.id) { return Err(InvalidActor); }
    if !ReasonOk(event, reason) { return Err(InvalidReason); }
    var denial := DenialOf(change, owned);
    DenialMeaning(change, owned);
    if denial.Some? {
      var recorded := Append(j, Refused, subject, change, Denied(denial.value));
      if Recordable(j, true, change.at) {
        DeniedIsRecorded(j, subject, change, denial.value);
      }
      if recorded.Err? { return Err(recorded.error); }
      return Ok(Outcome(recorded.value, denial));
    }
    if !holds { return Err(otherwise); }
    var appended := Append(j, event, subject, change, reason);
    r := match appended case Err(error) => Err(error) case Ok(next) => Ok(Outcome(next, None));
  }

  /** The profile is newer than every stored one of its name. */
  predicate Newer(j: ProfileJournal, p: Profile) {
    forall q :: q in j.profiles && q.name == p.name ==> q.version < p.version
  }

  lemma NewerThanScanned(j: ProfileJournal, p: Profile)
    requires Valid(j)
    ensures var s := Scanned(j.profiles, j.journal).value;
      && s.state == j.state && s.begun == j.profiles && s.last == LastTick(j.journal)
      && (Newer(j, p) <==> p.version > NewestOf(s, p.name))
    ensures Newer(j, p) ==> p !in j.profiles
  {
    ScanFacts(j);
    ScannedKeeps(j.profiles, j.journal);
  }

  lemma BeginAdvances(profiles: set<Profile>, s: Scan, index: nat, e: Entry)
    requires EntryOk(s, index, e) && e.event == Begun && s.state.pending.None?
    requires e.subject.Some? && e.subject.value in profiles
    ensures var p := e.subject.value;
      Advance(profiles, s, index, e) ==
      if p.version <= NewestOf(s, p.name) then Err(VersionNotNewer)
      else Ok(Scan(s.state.(pending := Some(p)), s.begun + {p}, s.newest[p.name := p.version], e.at))
  {
  }

  lemma BeginOpens(j: ProfileJournal, p: Profile, change: Change)
    requires Valid(j) && j.state.pending.None? && IsId(change.id) && change.kind == Human
    requires Recordable(j, false, change.at)
    ensures var e := NextEntry(j, Begun, Some(p), change, Unstated);
      var r := Opened(j.profiles + {p}, j.journal + [e]);
      (r.Ok? <==> Newer(j, p) && |j.profiles| < MAX_PROFILES)
      && (r.Ok? ==> r.value == ProfileJournal(j.profiles + {p}, j.journal + [e], j.state.(pending := Some(p))))
  {
    NewerThanScanned(j, p);
    AppendIsOneStep(j, Begun, Some(p), change, Unstated);
    var s := Scanned(j.profiles, j.journal).value;
    BeginAdvances(j.profiles + {p}, s, |j.journal|, NextEntry(j, Begun, Some(p), change, Unstated));
    assert Newer(j, p) ==> |j.profiles + {p}| == |j.profiles| + 1;
  }

  /** The state once the pending version is committed or dropped. */
  function Settled(state: State, event: Event): State {
    if event == Committed then State(state.pending, Stack(state), None) else state.(pending := None)
  }

  lemma SettleOpens(j: ProfileJournal, event: Event, change: Change, reason: Reason)
    requires Valid(j) && j.state.pending.Some? && IsId(change.id) && change.kind == Human
    requires event in {Committed, Aborted} && ReasonOk(event, reason)
    requires Recordable(j, false, change.at)
    ensures var e := NextEntry(j, event, j.state.pending, change, reason);
      Opened(j.profiles, j.journal + [e]) == Ok(ProfileJournal(j.profiles, j.journal + [e], Settled(j.state, event)))
  {
    ScannedKeeps(j.profiles, j.journal);
    AppendIsOneStep(j, event, j.state.pending, change, reason);
  }

  lemma RollBackOpens(j: ProfileJournal, change: Change, reason: Reason)
    requires Valid(j) && j.state.active.Some? && IsId(change.id) && change.kind == Human
    requires ReasonOk(RolledBack, reason) && Recordable(j, false, change.at)
    ensures var e := NextEntry(j, RolledBack, j.state.active, change, reason);
      var (active, previous) := Pop(j.state.previous);
      Opened(j.profiles, j.journal + [e])
        == Ok(ProfileJournal(j.profiles, j.journal + [e], State(active, previous, j.state.pending)))
  {
    ScannedKeeps(j.profiles, j.journal);
    AppendIsOneStep(j, RolledBack, j.state.active, change, reason);
  }

  lemma BeginRecorded(j: ProfileJournal, p: Profile, change: Change, r: Result<Outcome, Error>)
    requires Valid(j) && j.state.pending.None? && IsId(change.id) && change.kind == Human
    requires RecordsChange(j, Begun, Some(p), change, Unstated, r)
    ensures r.Ok? <==> Recordable(j, false, change.at) && Newer(j, p) && |j.profiles| < MAX_PROFILES
    ensures r.Ok? ==>
      var e := NextEntry(j, Begun, Some(p), change, Unstated);
      r.value == Outcome(ProfileJournal(j.profiles + {p}, j.journal + [e], j.state.(pending := Some(p))), None)
  {
    if Recordable(j, false, change.at) {
      BeginOpens(j, p, change);
    }
  }

  lemma SettleRecorded(j: ProfileJournal, event: Event, change: Change, reason: Reason, r: Result<Outcome, Error>)
    requires Valid(j) && j.state.pending.Some? && IsId(change.id) && change.kind == Human
    requires event in {Committed, Aborted} && ReasonOk(event, reason)
    requires RecordsChange(j, event, j.state.pending, change, reason, r)
    ensures r.Ok? <==> Recordable(j, false, change.at)
    ensures r.Ok? ==>
      var e := NextEntry(j, event, j.state.pending, change, reason);
      r.value == Outcome(ProfileJournal(j.profiles, j.journal + [e], Settled(j.state, event)), None)
  {
    if Recordable(j, false, change.at) {
      SettleOpens(j, event, change, reason);
    }
  }

  lemma RollBackRecorded(j: ProfileJournal, change: Change, reason: Reason, r: Result<Outcome, Error>)
    requires Valid(j) && j.state.active.Some? && IsId(change.id) && change.kind == Human && ReasonOk(RolledBack, reason)
    requires RecordsChange(j, RolledBack, j.state.active, change, reason, r)
    ensures r.Ok? <==> Recordable(j, false, change.at)
    ensures r.Ok? ==>
      var e := NextEntry(j, RolledBack, j.state.active, change, reason);
      var (active, previous) := Pop(j.state.previous);
      r.value == Outcome(ProfileJournal(j.profiles, j.journal + [e], State(active, previous, j.state.pending)), None)
  {
    if Recordable(j, false, change.at) {
      RollBackOpens(j, change, reason);
    }
  }

  /** Start activating a new version; what is active does not change yet. */
  method BeginChange(j: ProfileJournal, p: Profile, change: Change, owned: set<string>)
    returns (r: Result<Outcome, Error>)
    requires Valid(j)
    ensures r.Ok? ==> Valid(r.value.journal) && IsId(change.id)
    ensures IsId(change.id) ==> RecordsDenial(j, Some(p), change, owned, r)
    ensures IsId(change.id) && MayAsk(change, owned) ==>
      (r.Ok? <==> j.state.pending.None? && Recordable(j, false, change.at)
                  && Newer(j, p) && |j.profiles| < MAX_PROFILES)
    ensures r.Ok? && MayAsk(change, owned) ==>
      r.value == Outcome(
        ProfileJournal(
          j.profiles + {p},
          j.journal
            + [Entry(|j.journal|, Begun, Some(p), Actor(change.kind, change.id), change.at, Unstated)],
          j.state.(pending := Some(p))), None)
  {
    r := Act(j, Begun, Some(p), change, Unstated, owned, j.state.pending.None?, TransactionPending);
    if j.state.pending.None? && IsId(change.id) && MayAsk(change, owned) {
      BeginRecorded(j, p, change, r);
    }
  }

  /** Make the pending version active; the former active version stays restorable. */
  method Commit(j: ProfileJournal, change: Change, owned: set<string>) returns (r: Result<Outcome, Error>)
    requires Valid(j)
    ensures r.Ok? ==> Valid(r.value.journal) && IsId(change.id)
    ensures IsId(change.id) ==> RecordsDenial(j, j.state.pending, change, owned, r)
    ensures IsId(change.id) && MayAsk(change, owned) ==>
      (r.Ok? <==> j.state.pending.Some? && Recordable(j, false, change.at))
    ensures r.Ok? && MayAsk(change, owned) ==>
      r.value == Outcome(
        ProfileJournal(
          j.profiles,
          j.journal
            + [Entry(|j.journal|, Committed, j.state.pending, Actor(change.kind, change.id), change.at, Unstated)],
          State(
            j.state.pending,
            j.state.previous + if j.state.active.Some? then [j.state.active.value] else [], None)), None)
  {
    r := Act(j, Committed, j.state.pending, change, Unstated, owned, j.state.pending.Some?, NoTransaction);
    if j.state.pending.Some? && IsId(change.id) && MayAsk(change, owned) {
      SettleRecorded(j, Committed, change, Unstated, r);
    }
  }

  /** Drop the pending version; the active one is kept. */
  method Abort(j: ProfileJournal, change: Change, owned: set<string>, reason: string)
    returns (r: Result<Outcome, Error>)
    requires Valid(j)
    ensures r.Ok? ==> Valid(r.value.journal) && IsId(change.id) && IsId(reason)
    ensures IsId(change.id) && IsId(reason) ==> RecordsDenial(j, j.state.pending, change, owned, r)
    ensures IsId(change.id) && IsId(reason) && MayAsk(change, owned) ==>
      (r.Ok? <==> j.state.pending.Some? && Recordable(j, false, change.at))
    ensures r.Ok? && MayAsk(change, owned) ==>
      r.value == Outcome(
        ProfileJournal(
          j.profiles,
          j.journal
            + [Entry(|j.journal|, Aborted, j.state.pending, Actor(change.kind, change.id), change.at, Stated(reason))],
          j.state.(pending := None)), None)
  {
    r := Act(j, Aborted, j.state.pending, change, Stated(reason), owned, j.state.pending.Some?, NoTransaction);
    if j.state.pending.Some? && IsId(change.id) && IsId(reason) && MayAsk(change, owned) {
      SettleRecorded(j, Aborted, change, Stated(reason), r);
    }
  }

  /** Withdraw the active version and restore the newest earlier one. */
  method Rollback(j: ProfileJournal, change: Change, owned: set<string>, reason: string)
    returns (r: Result<Outcome, Error>)
    requires Valid(j)
    ensures r.Ok? ==> Valid(r.value.journal) && IsId(change.id) && IsId(reason)
    ensures IsId(change.id) && IsId(reason) ==> RecordsDenial(j, j.state.active, change, owned, r)
    ensures IsId(change.id) && IsId(reason) && MayAsk(change, owned) ==>
      (r.Ok? <==> j.state.active.Some? && Recordable(j, false, change.at))
    ensures r.Ok? && MayAsk(change, owned) ==>
      r.value == Outcome(
        ProfileJournal(
          j.profiles,
          j.journal
            + [Entry(|j.journal|, RolledBack, j.state.active, Actor(change.kind, change.id), change.at, Stated(reason))],
          if j.state.previous == [] then State(None, [], j.state.pending)
          else State(
            Some(j.state.previous[|j.state.previous| - 1]), j.state.previous[..|j.state.previous| - 1],
            j.state.pending)), None)
  {
    r := Act(j, RolledBack, j.state.active, change, Stated(reason), owned, j.state.active.Some?, NoActiveProfile);
    if j.state.active.Some? && IsId(change.id) && IsId(reason) && MayAsk(change, owned) {
      RollBackRecorded(j, change, Stated(reason), r);
    }
  }

  // ----- rollback undoes commit -----

  function StackAfter(stack: seq<Profile>, e: Entry): seq<Profile> {
    if e.event == Committed && e.subject.Some? then stack + [e.subject.value]
    else if e.event == RolledBack && stack != [] then stack[..|stack| - 1]
    else stack
  }

  /** The stack of activated versions, read off the events alone. */
  function StackOf(journal: seq<Entry>): seq<Profile> {
    if journal == [] then [] else StackAfter(StackOf(journal[..|journal| - 1]), journal[|journal| - 1])
  }

  /** One event moves the stack of the scan as it moves the stack of the events. */
  lemma StackStep(profiles: set<Profile>, s: Scan, index: nat, e: Entry)
    requires Coherent(s) && Advance(profiles, s, index, e).Ok?
    ensures Stack(Advance(profiles, s, index, e).value.state) == StackAfter(Stack(s.state), e)
  {
    if e.event == RolledBack {
      RollBackPops(s, e);
    } else if e.event == Committed || e.event == Aborted {
      SettlePushes(s, e);
    }
  }

  lemma StackShowsState(s: Scan)
    requires Coherent(s)
    ensures var stack := Stack(s.state);
      (s.state.active.Some? <==> stack != [])
      && (s.state.active.Some? ==>
            stack[|stack| - 1] == s.state.active.value && stack[..|stack| - 1] == s.state.previous)
  {
  }

  lemma {:induction false} StackIsReplayed(profiles: set<Profile>, journal: seq<Entry>)
    requires Scanned(profiles, journal).Ok?
    ensures Stack(Scanned(profiles, journal).value.state) == StackOf(journal)
    decreases |journal|
  {
    if journal != [] {
      var n := |journal| - 1;
      StackIsReplayed(profiles, journal[..n]);
      ScannedKeeps(profiles, journal[..n]);
      StackStep(profiles, Scanned(profiles, journal[..n]).value, n, journal[n]);
    }
  }

  /** Replay derives exactly that stack: its top is active and the rest can be restored. */
  lemma ReplayIsAStack(profiles: set<Profile>, journal: seq<Entry>)
    requires Scanned(profiles, journal).Ok?
    ensures var state, stack := Scanned(profiles, journal).value.state, StackOf(journal);
      Stack(state) == stack
      && (state.active.Some? <==> stack != [])
      && (state.active.Some? ==>
            stack[|stack| - 1] == state.active.value && stack[..|stack| - 1] == state.previous)
  {
    ScannedKeeps(profiles, journal);
    StackIsReplayed(profiles, journal);
    StackShowsState(Scanned(profiles, journal).value);
  }

  function Weight(e: Entry): int {
    match e.event case Committed => 1 case RolledBack => -1 case _ => 0
  }

  /** Commits less rollbacks. */
  function Depth(events: seq<Entry>): int {
    if events == [] then 0 else
    Depth(events[..|events| - 1]) + Weight(events[|events| - 1])
  }

  /** Every rollback withdraws a commit of the same stretch. */
  ghost predicate NeverBelow(events: seq<Entry>) {
    forall k :: 0 <= k <= |events| ==> Depth(events[..k]) >= 0
  }

  lemma OneMoreEvent(profiles: set<Profile>, journal: seq<Entry>, e: Entry)
    requires Scanned(profiles, journal + [e]).Ok?
    ensures Scanned(profiles, journal).Ok?
    ensures |StackOf(journal + [e])| == |StackOf(journal)| + Weight(e)
    ensures StackOf(journal) <= StackOf(journal + [e]) || StackOf(journal + [e]) <= StackOf(journal)
  {
    assert (journal + [e])[..|journal|] == journal;
    ReplayIsAStack(profiles, journal);
  }

  lemma DepthSplits(events: seq<Entry>)
    requires events != [] && NeverBelow(events)
    ensures Depth(events) == Depth(events[..|events| - 1]) + Weight(events[|events| - 1])
    ensures Depth(events) >= 0 && NeverBelow(events[..|events| - 1])
  {
    assert events[..|events|] == events;
    var shorter := events[..|events| - 1];
    forall k | 0 <= k <= |shorter| ensures Depth(shorter[..k]) >= 0 {
      assert shorter[..k] == events[..k];
    }
  }

  lemma {:induction false} StretchBuildsOn(profiles: set<Profile>, before: seq<Entry>, events: seq<Entry>)
    requires Scanned(profiles, before + events).Ok? && NeverBelow(events)
    ensures StackOf(before) <= StackOf(before + events)
    ensures |StackOf(before + events)| == |StackOf(before)| + Depth(events)
    decreases |events|
  {
    if events == [] {
      assert before + events == before;
    } else {
      var n := |events| - 1;
      assert before + events == before + events[..n] + [events[n]];
      DepthSplits(events);
      OneMoreEvent(profiles, before + events[..n], events[n]);
      StretchBuildsOn(profiles, before, events[..n]);
    }
  }

  /** A stretch that withdraws every version it commits leaves what is active and restorable as it was. */
  lemma WithdrawnLeavesNothing(profiles: set<Profile>, before: seq<Entry>, events: seq<Entry>)
    requires Scanned(profiles, before + events).Ok?
    requires NeverBelow(events) && Depth(events) == 0
    ensures Scanned(profiles, before).Ok?
    ensures var was, now := Scanned(profiles, before).value.state, Scanned(profiles, before + events).value.state;
      now.active == was.active && now.previous == was.previous
  {
    assert (before + events)[..|before|] == before;
    PrefixScanned(profiles, before + events, |before|);
    StretchBuildsOn(profiles, before, events);
    ReplayIsAStack(profiles, before);
    ReplayIsAStack(profiles, before + events);
  }

  // ----- the operator's file -----

  lemma {:induction false} ScansAgree(a: set<Profile>, b: set<Profile>, journal: seq<Entry>)
    requires Scanned(a, journal).Ok? && Scanned(b, journal).Ok?
    ensures Scanned(a, journal) == Scanned(b, journal)
    decreases |journal|
  {
    if journal != [] {
      ScansAgree(a, b, journal[..|journal| - 1]);
    }
  }

  /** A journal that extends another keeps every profile it stores. */
  lemma ExtensionKeepsProfiles(j: ProfileJournal, longer: ProfileJournal)
    requires Valid(j) && Valid(longer) && j.journal <= longer.journal
    ensures j.profiles <= longer.profiles
  {
    assert longer.journal[..|j.journal|] == j.journal;
    PrefixScanned(longer.profiles, longer.journal, |j.journal|);
    ScansAgree(j.profiles, longer.profiles, j.journal);
  }

  class JournalFile {
    var stored: Option<ProfileJournal>

    constructor ()
      ensures stored == None
    {
      stored := None;
    }

    /** Replace the stored journal, provided its events are a prefix of the new ones. */
    method Save(j: ProfileJournal) returns (r: Option<Error>)
      requires Valid(j) && (stored.Some? ==> Valid(stored.value))
      modifies this
      ensures r.None? <==> old(stored).None? || old(stored).value.journal <= j.journal
      ensures r.None? ==> stored == Some(j) && (old(stored).Some? ==> old(stored).value.profiles <= j.profiles)
      ensures r.Some? ==> r == Some(ConcurrentUpdate) && stored == old(stored)
    {
      if stored.Some? {
        var was := stored.value;
        if |was.journal| > |j.journal| || j.journal[..|was.journal|] != was.journal {
          return Some(ConcurrentUpdate);
        }
        ExtensionKeepsProfiles(was, j);
      }
      stored := Some(j);
      r := None;
    }
  }
}
