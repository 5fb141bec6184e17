/** The telemetry recorder. Every legal sequence of calls yields phases that reconcile; the only thing that
    can still refuse a receipt is its size in canonical JSON. Clock readings are parameters. */
module Telemetry {
  import opened Wrappers
  import P = Phases

  const MAX_BYTES := 0x10_0000
  const MAX_COUNTERS := 4096
  const MAX_ALLOWLIST := 16

  datatype Refusal =
    | Closed
    | InvalidInteger
    | ClockRegressed
    | InvalidIdentifier
    | InvalidPhase
    | UnknownPhase
    | InvalidAllowlist
    | NotAllowlisted
    | DuplicateReceipt
    | NonfiniteNumber
    | InconsistentCounter
    | InputBudgetExceeded

  /** A number by its JSON text; a finite one has at most 310 characters, as an integer below 2^1024 has. */
  datatype Number = Finite(text: string) | Nonfinite

  datatype Counter = Counter(name: string, unit: string, value: Option<Number>, reason: Option<string>, at: nat)

  datatype Receipt = Receipt(
    episode: string, incomplete: set<string>, phases: seq<P.Phase>, counters: seq<Counter>, summary: P.Reconciled)

  predicate Completed(r: Receipt) {
    r.incomplete == {}
  }

  predicate ValidNumber(n: Number) {
    n.Finite? ==> 1 <= |n.text| <= 310
  }

  ghost predicate ValidCounter(c: Counter) {
    && P.IsIdentifier(c.name) && P.IsIdentifier(c.unit)
    && P.IsInteger(c.at)
    && c.value.Some? == c.reason.None?
    && (c.value.Some? ==> c.value.value.Finite? && ValidNumber(c.value.value))
    && (c.reason.Some? ==> P.IsIdentifier(c.reason.value))
  }

  // ----- the size of a receipt in canonical JSON -----

  // The lengths of the fixed text around the fields of a counter, of a phase and of the receipt.
  const COUNTER_FRAME := 50
  const PHASE_FRAME := 36
  const FRAME := 219

  function Digits(n: nat): (d: nat)
    ensures d >= 1
  {
    if n < 10 then 1 else 1 + Digits(n / 10)
  }

  function PowerOfTen(k: nat): nat {
    if k == 0 then 1 else 10 * PowerOfTen(k - 1)
  }

  lemma {:induction false} DigitsBound(n: nat, k: nat)
    requires k >= 1 && n < PowerOfTen(k)
    ensures Digits(n) <= k
  {
    if n >= 10 {
      DigitsBound(n / 10, k - 1);
    }
  }

  lemma IntegerDigits(n: nat)
    requires P.IsInteger(n)
    ensures Digits(n) <= 19
  {
    assert PowerOfTen(10) == 10_000_000_000;
    assert PowerOfTen(19) == 1_000_000_000 * PowerOfTen(10);
    DigitsBound(n, 19);
  }

  /** A list of items, each counted together with the comma that follows it. */
  function ListSize(count: nat, items: nat): nat {
    if count == 0 then |"[]"| else |"["| + items
  }

  function TextSize(s: string): nat {
    |"''"| + |s|
  }

  function ValueSize(c: Counter): nat {
    match c.value case Some(Finite(text)) => |text| case _ => |"null"|
  }

  function ReasonSize(c: Counter): nat {
    match c.reason case Some(r) => TextSize(r) case None => |"null"|
  }

  function CounterSize(c: Counter): nat {
    COUNTER_FRAME + TextSize(c.name) + Digits(c.at) + ReasonSize(c) + TextSize(c.unit) + ValueSize(c)
  }

  function IntegerSize(n: int): nat {
    if n < 0 then |"-"| + Digits(-n) else Digits(n)
  }

  function PhaseSize(p: P.Phase): nat {
    PHASE_FRAME + IntegerSize(p.end) + TextSize(p.name) + IntegerSize(p.start)
  }

  function CountersSize(s: seq<Counter>): nat {
    if s == [] then 0 else CountersSize(s[..|s| - 1]) + CounterSize(s[|s| - 1]) + |","|
  }

  function PhasesSize(s: seq<P.Phase>): nat {
    if s == [] then 0 else PhasesSize(s[..|s| - 1]) + PhaseSize(s[|s| - 1]) + |","|
  }

  ghost function NamesSize(s: set<string>): nat {
    if s == {} then 0 else
      var x :| x in s;
      NamesSize(s - {x}) + TextSize(x) + |","|
  }

  /** The size does not depend on the order in which the names are taken. */
  lemma {:induction false} NamesSizeWithout(s: set<string>, x: string)
    requires x in s
    ensures NamesSize(s) == NamesSize(s - {x}) + TextSize(x) + |","|
    decreases s
  {
    var y :| y in s && NamesSize(s) == NamesSize(s - {y}) + TextSize(y) + |","|;
    if x != y {
      NamesSizeWithout(s - {y}, x);
      NamesSizeWithout(s - {x}, y);
      assert s - {y} - {x} == s - {x} - {y};
    }
  }

  ghost function StatusSize(r: Receipt): nat {
    if Completed(r) then 9 else 16
  }

  /** The size of the receipt before its digest is added. */
  ghost function ReceiptSize(r: Receipt): nat {
    FRAME
    + Digits(r.summary.wall) + Digits(r.summary.residual) + Digits(r.summary.covered)
    + ListSize(|r.counters|, CountersSize(r.counters))
    + TextSize(r.episode)
    + ListSize(|r.incomplete|, NamesSize(r.incomplete))
    + ListSize(|r.phases|, PhasesSize(r.phases))
    + StatusSize(r)
  }

  // ----- the canonical JSON text that has this size -----

  /** The decimal notation of a number. */
  function Decimal(n: nat): (s: string)
    ensures |s| == Digits(n)
  {
    if n < 10 then [Digit(n)] else Decimal(n / 10) + [Digit(n % 10)]
  }

  function Digit(d: nat): char
    requires d < 10
  {
    ('0' as int + d) as char
  }

  function ReadDecimal(s: string): int {
    if s == [] then 0 else 10 * ReadDecimal(s[..|s| - 1]) + s[|s| - 1] as int - '0' as int
  }

  /** The decimal notation reads as the number. */
  lemma {:induction false} DecimalReads(n: nat)
    ensures ReadDecimal(Decimal(n)) == n
  {
    if n < 10 {
      assert [Digit(n)][..0] == [];
    } else {
      DecimalReads(n / 10);
      assert Decimal(n)[..|Decimal(n)| - 1] == Decimal(n / 10);
    }
  }

  function Signed(n: int): (s: string)
    ensures |s| == IntegerSize(n)
  {
    if n < 0 then "-" + Decimal(-n) else Decimal(n)
  }

  /** A string in quotes. Identifiers have no character that is escaped. */
  function Quoted(s: string): (text: string)
    ensures |text| == TextSize(s)
  {
    "\"" + s + "\""
  }

  function Field(key: string, value: string): (text: string)
    ensures |text| == TextSize(key) + |":"| + |value|
  {
    Quoted(key) + ":" + value
  }

  function Joined(items: seq<string>): string {
    if items == [] then "" else
    var n := |items| - 1;
    if n == 0 then items[0] else Joined(items[..n]) + "," + items[n]
  }

  function Listed(items: seq<string>): string {
    "[" + Joined(items) + "]"
  }

  /** The size of the items, each with the comma that follows it. */
  function Total(items: seq<string>): nat {
    if items == [] then 0 else Total(items[..|items| - 1]) + |items[|items| - 1]| + |","|
  }

  lemma {:induction false} JoinedSize(items: seq<string>)
    requires items != []
    ensures |Joined(items)| + |","| == Total(items)
  {
    var n := |items| - 1;
    if n > 0 {
      JoinedSize(items[..n]);
    } else {
      assert items[..n] == [];
    }
  }

  lemma ListedSize(items: seq<string>)
    ensures |Listed(items)| == ListSize(|items|, Total(items))
  {
    if items != [] {
      JoinedSize(items);
    }
  }

  function CounterText(c: Counter): (s: string)
    ensures |s| == CounterSize(c)
  {
    var value := match c.value case Some(Finite(text)) => text case _ => "null";
    var reason := match c.reason case Some(r) => Quoted(r) case None => "null";
    "{" + Field("name", Quoted(c.name)) + "," + Field("observedNs", Decimal(c.at)) + "," + Field("reason", reason) + ","
    + Field("unit", Quoted(c.unit)) + "," + Field("value", value) + "}"
  }

  function PhaseText(p: P.Phase): (s: string)
    ensures |s| == PhaseSize(p)
  {
    "{" + Field("finishedNs", Signed(p.end)) + "," + Field("name", Quoted(p.name)) + ","
    + Field("startedNs", Signed(p.start)) + "}"
  }

  function CounterTexts(s: seq<Counter>): (texts: seq<string>)
    ensures |texts| == |s| && Total(texts) == CountersSize(s)
  {
    if s == [] then [] else
    var texts := CounterTexts(s[..|s| - 1]) + [CounterText(s[|s| - 1])];
    assert texts[..|s| - 1] == CounterTexts(s[..|s| - 1]);
    texts
  }

  function PhaseTexts(s: seq<P.Phase>): (texts: seq<string>)
    ensures |texts| == |s| && Total(texts) == PhasesSize(s)
  {
    if s == [] then [] else
    var texts := PhaseTexts(s[..|s| - 1]) + [PhaseText(s[|s| - 1])];
    assert texts[..|s| - 1] == PhaseTexts(s[..|s| - 1]);
    texts
  }

  /** These are the names, each of them once. */
  ghost predicate Enumerates(names: seq<string>, all: set<string>) {
    (set x | x in names) == all && |names| == |all|
  }

  function NameTexts(names: seq<string>): (texts: seq<string>)
    ensures |texts| == |names|
  {
    seq(|names|, i requires 0 <= i < |names| => Quoted(names[i]))
  }

  lemma {:induction false} NameTextsSize(names: seq<string>, all: set<string>)
    requires Enumerates(names, all)
    ensures Total(NameTexts(names)) == NamesSize(all)
  {
    if names != [] {
      var n := |names| - 1;
      var x, rest := names[n], names[..n];
      assert names == rest + [x];
      LastNameIsNew(names, all);
      NameTextsSize(rest, all - {x});
      NamesSizeWithout(all, x);
      assert NameTexts(names)[..n] == NameTexts(rest);
    }
  }

  lemma LastNameIsNew(names: seq<string>, all: set<string>)
    requires names != [] && Enumerates(names, all)
    ensures names[|names| - 1] in all && Enumerates(names[..|names| - 1], all - {names[|names| - 1]})
  {
    var n := |names| - 1;
    var x, rest := names[n], set y | y in names[..n];
    assert names == names[..n] + [x];
    assert all == rest + {x};
    FewerThanListed(names[..n]);
  }

  lemma {:induction false} FewerThanListed(names: seq<string>)
    ensures |set y | y in names| <= |names|
  {
    if names != [] {
      var n := |names| - 1;
      FewerThanListed(names[..n]);
      assert names == names[..n] + [names[n]];
      assert (set y | y in names) == (set y | y in names[..n]) + {names[n]};
    }
  }

  ghost function StatusText(r: Receipt): (s: string)
    ensures |s| == StatusSize(r)
  {
    if Completed(r) then "completed" else "incomplete-phase"
  }

  /** The numbers of the receipt, and its lists, in front of the fixed fields. */
  ghost function HeadText(r: Receipt, names: seq<string>): string {
    "{" + Field("completeWallNs", Decimal(r.summary.wall)) + ","
    + Field("coordinatorResidualNs", Decimal(r.summary.residual)) + ","
    + Field("counters", Listed(CounterTexts(r.counters))) + ","
    + Field("episodeId", Quoted(r.episode)) + ","
    + Field("incompletePhases", Listed(NameTexts(names))) + ","
    + Field("phaseIntervals", Listed(PhaseTexts(r.phases))) + ","
    + Field("phaseUnionNs", Decimal(r.summary.covered)) + ","
  }

  ghost function TailText(r: Receipt): (s: string)
    ensures |s| == 96 + StatusSize(r)
  {
    Field("sourceKind", Quoted("authentic-on-synthetic")) + "," + Field("status", Quoted(StatusText(r))) + ","
    + Field("version", Quoted("agent-braid-forecast-telemetry-v1")) + "}"
  }

  /** The canonical text of the receipt, with the open phases listed in this order. */
  ghost function ReceiptText(r: Receipt, names: seq<string>): string {
    HeadText(r, names) + TailText(r)
  }

  /** The size is that of the canonical text, in whatever order the open phases are listed. */
  lemma ReceiptTextHasSize(r: Receipt, names: seq<string>)
    requires Enumerates(names, r.incomplete)
    ensures |ReceiptText(r, names)| == ReceiptSize(r)
  {
    ListedSize(CounterTexts(r.counters));
    ListedSize(PhaseTexts(r.phases));
    ListedSize(NameTexts(names));
    NameTextsSize(names, r.incomplete);
  }

  method MeasureNames(names: set<string>) returns (size: nat)
    ensures size == NamesSize(names)
  {
    var rest := names;
    size := 0;
    while rest != {}
      invariant rest <= names
      invariant size + NamesSize(rest) == NamesSize(names)
      decreases |rest|
    {
      var x :| x in rest;
      NamesSizeWithout(rest, x);
      size := size + TextSize(x) + |","|;
      rest := rest - {x};
    }
  }

  method Measure(r: Receipt) returns (size: nat)
    ensures size == ReceiptSize(r)
  {
    var names := MeasureNames(r.incomplete);
    var status := if r.incomplete == {} then 9 else 16;
    size := FRAME
      + Digits(r.summary.wall) + Digits(r.summary.residual) + Digits(r.summary.covered)
      + ListSize(|r.counters|, CountersSize(r.counters))
      + TextSize(r.episode)
      + ListSize(|r.incomplete|, names)
      + ListSize(|r.phases|, PhasesSize(r.phases))
      + status;
  }

  // ----- bounds on the size -----

  lemma {:induction false} CountersBound(s: seq<Counter>)
    requires forall c :: c in s ==> ValidCounter(c)
    ensures CountersSize(s) <= 644 * |s|
  {
    if s != [] {
      var c := s[|s| - 1];
      assert c in s;
      CountersBound(s[..|s| - 1]);
      IntegerDigits(c.at);
    }
  }

  lemma {:induction false} PhasesBound(s: seq<P.Phase>, wall: nat)
    requires P.IsInteger(wall) && forall p :: p in s ==> P.ValidPhase(p, wall)
    ensures PhasesSize(s) <= 205 * |s|
  {
    if s != [] {
      var p := s[|s| - 1];
      assert p in s;
      PhasesBound(s[..|s| - 1], wall);
      IntegerDigits(p.start);
      IntegerDigits(p.end);
    }
  }

  lemma {:induction false} NamesBound(s: set<string>)
    requires forall x :: x in s ==> P.IsIdentifier(x)
    ensures NamesSize(s) <= 131 * |s|
  {
    if s != {} {
      var x :| x in s;
      NamesSizeWithout(s, x);
      NamesBound(s - {x});
    }
  }

  ghost predicate WellFormed(r: Receipt) {
    && P.IsIdentifier(r.episode)
    && P.IsInteger(r.summary.wall)
    && r.summary.covered <= r.summary.wall && r.summary.residual <= r.summary.wall
    && (forall x :: x in r.incomplete ==> P.IsIdentifier(x))
    && (forall p :: p in r.phases ==> P.ValidPhase(p, r.summary.wall))
    && (forall c :: c in r.counters ==> ValidCounter(c))
    && |r.phases| + |r.incomplete| <= P.MAX_PHASES
  }

  /** With at most 1300 counters a receipt always fits its budget. */
  lemma FewCountersFit(r: Receipt)
    requires WellFormed(r) && |r.counters| <= 1300
    ensures ReceiptSize(r) <= MAX_BYTES
  {
    CountersBound(r.counters);
    PhasesBound(r.phases, r.summary.wall);
    NamesBound(r.incomplete);
    IntegerDigits(r.summary.wall);
    IntegerDigits(r.summary.covered);
    IntegerDigits(r.summary.residual);
  }

  ghost function SealedReceipt(
    episode: string, incomplete: set<string>, phases: seq<P.Phase>, counters: seq<Counter>, wall: nat): (r: Receipt)
    requires forall p :: p in phases ==> P.ValidPhase(p, wall)
    ensures r.summary.wall == wall && r.summary.covered + r.summary.residual == wall
  {
    var covered := |P.Covered(P.IntervalsOf(phases))|;
    P.PhasesCoverWithin(phases, wall);
    Receipt(episode, incomplete, phases, counters, P.Reconciled(wall, covered, wall - covered))
  }

  /** Reconcile the phases and check the size of the receipt; valid phases always reconcile. */
  method Seal(
    episode: string, incomplete: set<string>, phases: seq<P.Phase>, counters: seq<Counter>, wall: nat)
    returns (r: Result<Receipt, Refusal>)
    requires P.IsInteger(wall) && |phases| <= P.MAX_PHASES
    requires forall p :: p in phases ==> P.ValidPhase(p, wall)
    ensures var receipt := SealedReceipt(episode, incomplete, phases, counters, wall);
      r == if ReceiptSize(receipt) <= MAX_BYTES then Ok(receipt) else Err(InputBudgetExceeded)
  {
    var reconciled := P.ReconcilePhases(phases, wall);
    assert reconciled.Ok?;
    var receipt := Receipt(episode, incomplete, phases, counters, reconciled.value);
    var size := Measure(receipt);
    r := if size <= MAX_BYTES then Ok(receipt) else Err(InputBudgetExceeded);
  }

  // ----- the recorder -----

  /** Every open phase started within the elapsed time. */
  ghost predicate OpenWithin(active: map<string, nat>, elapsed: nat) {
    forall name :: name in active ==> P.IsIdentifier(name) && active[name] <= elapsed
  }

  ghost predicate PhasesWithin(phases: seq<P.Phase>, elapsed: nat) {
    forall p :: p in phases ==> P.ValidPhase(p, elapsed)
  }

  ghost predicate CountersWithin(counters: seq<Counter>, elapsed: nat) {
    forall c :: c in counters ==> ValidCounter(c) && c.at <= elapsed
  }

  lemma LaterIsWithin(active: map<string, nat>, phases: seq<P.Phase>, counters: seq<Counter>, was: nat, now: nat)
    requires OpenWithin(active, was) && PhasesWithin(phases, was) && CountersWithin(counters, was) && was <= now
    ensures OpenWithin(active, now) && PhasesWithin(phases, now) && CountersWithin(counters, now)
  {
  }

  lemma StartedWithin(active: map<string, nat>, name: string, elapsed: nat)
    requires OpenWithin(active, elapsed) && P.IsIdentifier(name) && name !in active
    ensures OpenWithin(active[name := elapsed], elapsed) && |active[name := elapsed]| == |active| + 1
  {
  }

  lemma EndedWithin(active: map<string, nat>, phases: seq<P.Phase>, name: string, elapsed: nat)
    requires OpenWithin(active, elapsed) && PhasesWithin(phases, elapsed) && name in active
    ensures OpenWithin(active - {name}, elapsed) && |active - {name}| == |active| - 1
    ensures PhasesWithin(phases + [P.Phase(name, active[name], elapsed)], elapsed)
  {
    assert (active - {name}).Keys == active.Keys - {name};
    assert |active.Keys| == |active|;
    assert |(active - {name}).Keys| == |active - {name}|;
  }

  function KeysOf(counters: seq<Counter>): set<(string, nat)> {
    if counters == [] then {} else
      var c := counters[|counters| - 1];
      KeysOf(counters[..|counters| - 1]) + {(c.name, c.at)}
  }

  /** The receipts seen are those recorded, each of them once. */
  ghost predicate RecordedOnce(counters: seq<Counter>, seen: set<(string, nat)>) {
    seen == KeysOf(counters) && |seen| == |counters|
  }

  lemma RecordOne(counters: seq<Counter>, seen: set<(string, nat)>, c: Counter)
    requires RecordedOnce(counters, seen) && (c.name, c.at) !in seen
    ensures RecordedOnce(counters + [c], seen + {(c.name, c.at)})
  {
    assert (counters + [c])[..|counters|] == counters;
  }

  lemma SampledWithin(counters: seq<Counter>, c: Counter, elapsed: nat)
    requires CountersWithin(counters, elapsed) && ValidCounter(c) && c.at <= elapsed
    ensures CountersWithin(counters + [c], elapsed)
  {
  }

  predicate IsAllowlist(m: map<string, string>) {
    |m| <= MAX_ALLOWLIST && forall name :: name in m ==> P.IsIdentifier(name) && P.IsIdentifier(m[name])
  }

  function ValueRefusal(value: Option<Number>, reason: Option<string>): Option<Refusal> {
    match value
    case None => if reason.Some? && P.IsIdentifier(reason.value) then None else Some(InvalidIdentifier)
    case Some(n) =>
      if n.Nonfinite? then Some(NonfiniteNumber) else if reason.Some? then Some(InconsistentCounter) else None
  }

  /** A sample that nothing refuses extends the log. */
  lemma SampleExtends(
    allowlist: map<string, string>, counters: seq<Counter>, seen: set<(string, nat)>, elapsed: nat,
    name: string, value: Option<Number>, reason: Option<string>)
    requires IsAllowlist(allowlist) && name in allowlist && P.IsInteger(elapsed)
    requires value.Some? ==> ValidNumber(value.value)
    requires ValueRefusal(value, reason).None? && (name, elapsed) !in seen
    requires CountersWithin(counters, elapsed) && RecordedOnce(counters, seen)
    ensures var log := counters + [Counter(name, allowlist[name], value, reason, elapsed)];
      CountersWithin(log, elapsed) && RecordedOnce(log, seen + {(name, elapsed)})
  {
    var counter := Counter(name, allowlist[name], value, reason, elapsed);
    SampledWithin(counters, counter, elapsed);
    RecordOne(counters, seen, counter);
  }

  class TelemetryRecorder {
    const episode: string
    const allowlist: map<string, string>
    const origin: nat
    var last: nat
    var active: map<string, nat>
    var phases: seq<P.Phase>
    var counters: seq<Counter>
    var seen: set<(string, nat)>
    var closed: bool

    ghost predicate Valid()
      reads this
    {
      && P.IsIdentifier(episode) && IsAllowlist(allowlist)
      && origin <= last <= P.MAX_INTEGER
      && OpenWithin(active, last - origin)
      && PhasesWithin(phases, last - origin)
      && CountersWithin(counters, last - origin)
      && RecordedOnce(counters, seen)
      && |phases| + |active| <= P.MAX_PHASES
      && |counters| <= MAX_COUNTERS
    }

    constructor (episode: string, allowlist: map<string, string>, now: int)
      requires P.IsIdentifier(episode) && IsAllowlist(allowlist) && P.IsInteger(now)
      ensures Valid() && this.episode == episode && this.allowlist == allowlist && origin == now && last == now
      ensures active == map[] && phases == [] && counters == [] && seen == {} && !closed
    {
      this.episode, this.allowlist, this.origin := episode, allowlist, now;
      last, active, phases, counters, seen, closed := now, map[], [], [], {}, false;
    }

    /** What refuses a reading of the clock, if anything. */
    ghost function TickRefusal(now: int): Option<Refusal>
      reads this
    {
      if closed then Some(Refusal.Closed)
      else if !P.IsInteger(now) then Some(InvalidInteger)
      else if now < last then Some(ClockRegressed)
      else None
    }

    method Tick(now: int) returns (r: Result<nat, Refusal>)
      requires Valid()
      modifies this`last
      ensures Valid()
      ensures r.Err? <==> old(TickRefusal(now)).Some?
      ensures r.Err? ==> old(TickRefusal(now)) == Some(r.error) && last == old(last)
      ensures r.Ok? ==> last == now && r.value == now - origin && r.value <= P.MAX_INTEGER
    {
      if closed { return Err(Refusal.Closed); }
      if !P.IsInteger(now) { return Err(InvalidInteger); }
      if now < last { return Err(ClockRegressed); }
      LaterIsWithin(active, phases, counters, last - origin, now - origin);
      last := now;
      r := Ok(now - origin);
    }

    method StartPhase(name: string, now: int) returns (r: Option<Refusal>)
      requires Valid()
      modifies this`last, this`active
      ensures Valid()
      ensures r == if !P.IsIdentifier(name) then Some(InvalidIdentifier)
                   else if name in old(active) || old(|phases| + |active|) >= P.MAX_PHASES then Some(InvalidPhase)
                   else old(TickRefusal(now))
      ensures r.None? ==> active == old(active)[name := now - origin] && last == now
      ensures r.Some? ==> active == old(active) && last == old(last)
    {
      if !P.IsIdentifier(name) { return Some(InvalidIdentifier); }
      if name in active || |phases| + |active| >= P.MAX_PHASES { return Some(InvalidPhase); }
      var tick := Tick(now);
      if tick.Err? { return Some(tick.error); }
      StartedWithin(active, name, tick.value);
      active := active[name := tick.value];
      r := None;
    }

    method EndPhase(name: string, now: int) returns (r: Option<Refusal>)
      requires Valid()
      modifies this`last, this`active, this`phases
      ensures Valid()
      ensures r == if name !in old(active) then Some(UnknownPhase) else old(TickRefusal(now))
      ensures r.None? ==>
        last == now && active == old(active) - {name}
        && phases == old(phases) + [P.Phase(name, old(active)[name], now - origin)]
      ensures r.Some? ==> active == old(active) && phases == old(phases) && last == old(last)
    {
      if name !in active { return Some(UnknownPhase); }
      var tick := Tick(now);
      if tick.Err? { return Some(tick.error); }
      Conclude(name, tick.value);
      r := None;
    }

    /** Turns an open phase into a recorded interval. */
    method Conclude(name: string, at: nat)
      requires Valid() && name in active && at == last - origin
      modifies this`active, this`phases
      ensures Valid()
      ensures active == old(active) - {name} && phases == old(phases) + [P.Phase(name, old(active)[name], at)]
    {
      EndedWithin(active, phases, name, at);
      phases := phases + [P.Phase(name, active[name], at)];
      active := active - {name};
    }

    /** What refuses a sample once the clock has been read. */
    function SampleRefusal(name: string, value: Option<Number>, reason: Option<string>, at: nat): Option<Refusal>
      reads this`seen
    {
      if (name, at) in seen then Some(DuplicateReceipt) else ValueRefusal(value, reason)
    }

    /** A refusal after the clock was read leaves the reading in place and records nothing. */
    method Sample(name: string, value: Option<Number>, reason: Option<string>, now: int) returns (r: Option<Refusal>)
      requires Valid() && (value.Some? ==> ValidNumber(value.value))
      modifies this`last, this`counters, this`seen
      ensures Valid()
      ensures r == if name !in allowlist || old(|counters|) >= MAX_COUNTERS then Some(NotAllowlisted)
                   else if old(TickRefusal(now)).Some? then old(TickRefusal(now))
                   else old(SampleRefusal(name, value, reason, now - origin))
      ensures r.None? ==>
        last == now && seen == old(seen) + {(name, now - origin)}
        && counters == old(counters) + [Counter(name, allowlist[name], value, reason, now - origin)]
      ensures r.Some? ==> counters == old(counters) && seen == old(seen) && (last == old(last) || last == now)
    {
      if name !in allowlist || |counters| >= MAX_COUNTERS { return Some(NotAllowlisted); }
      var tick := Tick(now);
      if tick.Err? { return Some(tick.error); }
      var at := tick.value;
      r := SampleRefusal(name, value, reason, at);
      if r.Some? { return; }
      Record(name, value, reason, at);
    }

    /** Appends an accepted sample to the log. */
    method Record(name: string, value: Option<Number>, reason: Option<string>, at: nat)
      requires Valid() && (value.Some? ==> ValidNumber(value.value))
      requires name in allowlist && |counters| < MAX_COUNTERS && at == last - origin
      requires SampleRefusal(name, value, reason, at).None?
      modifies this`counters, this`seen
      ensures Valid()
      ensures seen == old(seen) + {(name, at)}
      ensures counters == old(counters) + [Counter(name, allowlist[name], value, reason, at)]
    {
      SampleExtends(allowlist, counters, seen, at, name, value, reason);
      seen := seen + {(name, at)};
      counters := counters + [Counter(name, allowlist[name], value, reason, at)];
    }

    /** The receipt that closing at this reading produces. */
    ghost function ReceiptAt(now: int): (r: Receipt)
      requires Valid() && TickRefusal(now).None?
      reads this
      ensures WellFormed(r)
    {
      SealedReceipt(episode, active.Keys, phases, counters, now - origin)
    }

    /** Closing never fails to reconcile: once the clock is read, only the receipt's size can refuse it. */
    method Finish(now: int) returns (r: Result<Receipt, Refusal>)
      requires Valid()
      modifies this`last, this`closed
      ensures Valid()
      ensures r == match old(TickRefusal(now))
                   case Some(refusal) => Err(refusal)
                   case None =>
                     var receipt := old(ReceiptAt(now));
                     if ReceiptSize(receipt) <= MAX_BYTES then Ok(receipt) else Err(InputBudgetExceeded)
      ensures closed == (old(closed) || old(TickRefusal(now)).None?)
    {
      var tick := Tick(now);
      if tick.Err? { return Err(tick.error); }
      r := Close(tick.value);
    }

    /** Closes the recorder and makes its receipt. */
    method Close(wall: nat) returns (r: Result<Receipt, Refusal>)
      requires Valid() && wall == last - origin
      modifies this`closed
      ensures Valid() && closed
      ensures var receipt := SealedReceipt(episode, active.Keys, phases, counters, wall);
        r == if ReceiptSize(receipt) <= MAX_BYTES then Ok(receipt) else Err(InputBudgetExceeded)
    {
      closed := true;
      r := Seal(episode, active.Keys, phases, counters, wall);
    }
  }

  lemma LongCounterGrows(s: seq<Counter>, c: Counter)
    requires |c.name| == 128 && |c.unit| == 128
    ensures CountersSize(s + [c]) >= CountersSize(s) + 257
  {
    assert (s + [c])[..|s|] == s;
  }

  lemma LongLogIsTooLarge(r: Receipt)
    requires |r.counters| == MAX_COUNTERS && CountersSize(r.counters) >= 257 * MAX_COUNTERS
    ensures ReceiptSize(r) > MAX_BYTES
  {
  }

  ghost predicate Logging(recorder: TelemetryRecorder, name: string, unit: string, k: nat)
    reads recorder
  {
    && !recorder.closed && recorder.allowlist == map[name := unit]
    && recorder.origin == 0 && recorder.last <= k
    && |recorder.counters| == k && CountersSize(recorder.counters) >= 257 * k
    && forall p :: p in recorder.seen ==> p.1 <= k
  }

  method SampleNext(recorder: TelemetryRecorder, name: string, unit: string, k: nat)
    requires recorder.Valid() && Logging(recorder, name, unit, k) && k < MAX_COUNTERS
    requires |name| == 128 && |unit| == 128
    modifies recorder
    ensures recorder.Valid() && Logging(recorder, name, unit, k + 1)
  {
    var value := Some(Finite("0"));
    LongCounterGrows(recorder.counters, Counter(name, unit, value, None, k + 1));
    var refusal := recorder.Sample(name, value, None, k + 1);
  }

  /** A legal session whose receipt cannot be made: a full log of counters with long names. The recorder is
      closed all the same, so the recording is lost. */
  method FullLogIsLost(name: string, unit: string) returns (r: Result<Receipt, Refusal>, wasClosed: bool)
    requires P.IsIdentifier(name) && |name| == 128 && P.IsIdentifier(unit) && |unit| == 128
    ensures r == Err(InputBudgetExceeded) && wasClosed
  {
    var recorder := new TelemetryRecorder("e", map[name := unit], 0);
    for k := 0 to MAX_COUNTERS
      invariant recorder.Valid() && fresh(recorder)
      invariant Logging(recorder, name, unit, k)
    {
      SampleNext(recorder, name, unit, k);
    }
    LongLogIsTooLarge(recorder.ReceiptAt(MAX_COUNTERS + 1));
    r := recorder.Finish(MAX_COUNTERS + 1);
    wasClosed := recorder.closed;
  }
}
