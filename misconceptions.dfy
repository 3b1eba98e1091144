/**
 * The per-session misconception confidence ledger: a JavaScript `Map` from the eight
 * misconception tags to a confidence in [0, 1], updated in place once per turn from the
 * classifier's verdicts, with decay of the tags no verdict mentions and resolution of
 * every tag that falls below the threshold.
 */
module Misconceptions {
  import opened Wrappers
  import opened OrderedMap

  datatype MisconceptionId =
    | OffByOne
    | MutationVsReassignment
    | ReturnVsPrint
    | AsyncVsParallel
    | NullChecks
    | ScopeShadowing
    | Statefulness
    | SideEffects

  /** The taxonomy's declaration order, which is the order unmentioned tags decay in. */
  const Taxonomy: seq<MisconceptionId> :=
    [OffByOne, MutationVsReassignment, ReturnVsPrint, AsyncVsParallel,
     NullChecks, ScopeShadowing, Statefulness, SideEffects]

  datatype VerdictStatus = Reinforced | Weakened | New | Absent

  datatype Verdict = Verdict(id: MisconceptionId, status: VerdictStatus, certainty: real, rationale: Option<string>)

  const NeutralConfidence: real := 0.32
  const DeltaUp: real := 0.22
  const DeltaDown: real := 0.18
  const Decay: real := 0.9
  const ResolutionThreshold: real := 0.18

  /** The ledger: tag and confidence in the map's iteration order. */
  type Ledger = seq<(MisconceptionId, real)>

  /** `Math.min(1, Math.max(0, n))`. */
  function Clamp(n: real): (r: real)
    ensures 0.0 <= r <= 1.0
    ensures 0.0 <= n <= 1.0 ==> r == n
    ensures n < 0.0 ==> r == 0.0
    ensures n > 1.0 ==> r == 1.0
  {
    if n > 1.0 then 1.0 else if n < 0.0 then 0.0 else n
  }

  /** The clamped confidence one verdict gives a tag whose prior confidence is `prev`. */
  function NextConfidence(prev: real, status: VerdictStatus): (next: real)
    ensures 0.0 <= next <= 1.0
    ensures status == New ==> next == 0.43
    ensures 0.0 <= prev <= 1.0 ==>
      && (status == Reinforced ==> prev <= next)
      && (status == Weakened ==> next <= prev)
      && (status == Absent ==> next <= prev)
    ensures status == Reinforced && 0.0 <= prev <= 0.78 ==> next == prev + 0.22
    ensures status == Weakened && 0.18 <= prev <= 1.0 ==> next == prev - 0.18
    ensures status == Reinforced && 0.78 < prev <= 1.0 ==> next == 1.0
    ensures status == Weakened && 0.0 <= prev < 0.18 ==> next == 0.0
    ensures status == Absent && 0.0 <= prev <= 1.0 ==> next == prev * 0.9
  {
    var raw := match status
      case Reinforced => prev + DeltaUp
      case Weakened => prev - DeltaDown
      case New => NeutralConfidence + DeltaUp / 2.0
      case Absent => prev * Decay;
    Clamp(raw)
  }

  /** The clamped confidence of an active tag that no verdict mentioned. */
  function DecayedConfidence(prev: real): (next: real)
    ensures 0.0 <= next <= 1.0
    ensures 0.0 <= prev <= 1.0 ==> next == prev * 0.9
  {
    Clamp(prev * Decay)
  }

  /** The delta recorded for a tag whose confidence moves from `prev` to `next`. */
  function Change(prev: real, next: real): (d: real)
    ensures prev + d == next
  {
    next - prev
  }

  /** What `applyVerdicts` has built so far: the ledger, the deltas record and the resolution events. */
  datatype LedgerUpdate = LedgerUpdate(ledger: Ledger, deltas: map<MisconceptionId, real>, events: seq<MisconceptionId>)

  /** `verdicts.some(v => v.id === id)`, scanning from the front. */
  predicate Mentioned(verdicts: seq<Verdict>, id: MisconceptionId) {
    verdicts != [] && (verdicts[0].id == id || Mentioned(verdicts[1..], id))
  }

  /** One iteration of the loop over the verdicts. */
  function VerdictStep(u: LedgerUpdate, v: Verdict): LedgerUpdate {
    var prev := Get(u.ledger, v.id).GetOr(NeutralConfidence);
    var next := NextConfidence(prev, v.status);
    var deltas := u.deltas[v.id := Change(prev, next)];
    if next < ResolutionThreshold then LedgerUpdate(Delete(u.ledger, v.id), deltas, u.events + [v.id])
    else LedgerUpdate(Set(u.ledger, v.id, next), deltas, u.events)
  }

  /** The loop over the verdicts, run on `vs` from `u`. */
  function AfterVerdicts(u: LedgerUpdate, vs: seq<Verdict>): LedgerUpdate
    decreases |vs|
  {
    if vs == [] then u else VerdictStep(AfterVerdicts(u, vs[..|vs| - 1]), vs[|vs| - 1])
  }

  /** One iteration of the decay loop over the taxonomy. */
  function DecayStep(u: LedgerUpdate, verdicts: seq<Verdict>, id: MisconceptionId): LedgerUpdate {
    if !Mentioned(verdicts, id) && Has(u.ledger, id) then
      var prev := Get(u.ledger, id).value;
      var next := DecayedConfidence(prev);
      if next < ResolutionThreshold then LedgerUpdate(Delete(u.ledger, id), u.deltas[id := -prev], u.events + [id])
      else LedgerUpdate(Set(u.ledger, id, next), u.deltas[id := Change(prev, next)], u.events)
    else u
  }

  /** The decay loop, run over the tags `ids` in order. */
  function AfterDecay(u: LedgerUpdate, verdicts: seq<Verdict>, ids: seq<MisconceptionId>): LedgerUpdate
    decreases |ids|
  {
    if ids == [] then u else DecayStep(AfterDecay(u, verdicts, ids[..|ids| - 1]), verdicts, ids[|ids| - 1])
  }

  /** Extending a prefix by one element. */
  lemma PrefixSnoc<T>(s: seq<T>, j: nat)
    requires j < |s|
    ensures s[..j + 1] == s[..j] + [s[j]]
  {
  }

  lemma AfterVerdictsSnoc(u: LedgerUpdate, vs: seq<Verdict>, v: Verdict)
    ensures AfterVerdicts(u, vs + [v]) == VerdictStep(AfterVerdicts(u, vs), v)
  {
    assert (vs + [v])[..|vs|] == vs;
  }

  lemma AfterDecaySnoc(u: LedgerUpdate, verdicts: seq<Verdict>, ids: seq<MisconceptionId>, id: MisconceptionId)
    ensures AfterDecay(u, verdicts, ids + [id]) == DecayStep(AfterDecay(u, verdicts, ids), verdicts, id)
  {
    assert (ids + [id])[..|ids|] == ids;
  }

  /** The whole of `applyVerdicts` on a ledger: verdicts first, then decay in taxonomy order. */
  function ApplyVerdictsSpec(ledger: Ledger, verdicts: seq<Verdict>): LedgerUpdate {
    AfterDecay(AfterVerdicts(LedgerUpdate(ledger, map[], []), verdicts), verdicts, Taxonomy)
  }

  /** The value `applyVerdicts` returns. */
  datatype UpdateResult = UpdateResult(deltas: map<MisconceptionId, real>, resolutionEvents: seq<MisconceptionId>)

  /** The session state; its `map` is the field `ledger` here. */
  class MisconceptionState {
    var ledger: Ledger
    var learnerConfidence: real
    var lastQuestion: Option<string>
    var summary: string
    var turnIndex: int

    /** A JavaScript `Map` never holds a key twice. */
    predicate Valid()
      reads this
    {
      OrderedMap.Valid(ledger)
    }

    /** `createSessionState`: an empty ledger, learner confidence 0.5, no last question. */
    constructor ()
      ensures Valid()
      ensures ledger == [] && learnerConfidence == 0.5 && lastQuestion == None
      ensures summary == "" && turnIndex == 0
    {
      ledger := [];
      learnerConfidence := 0.5;
      lastQuestion := None;
      summary := "";
      turnIndex := 0;
    }
  }

  /**
   * `applyVerdicts`: updates the ledger in place and returns the deltas and the resolution
   * events. Only the ledger changes.
   */
  method ApplyVerdicts(state: MisconceptionState, verdicts: seq<Verdict>) returns (result: UpdateResult)
    requires state.Valid()
    modifies state`ledger
    ensures state.Valid()
    ensures forall i :: 0 <= i < |state.ledger| ==> ResolutionThreshold <= state.ledger[i].1 <= 1.0
    ensures var spec := ApplyVerdictsSpec(old(state.ledger), verdicts);
      state.ledger == spec.ledger && result == UpdateResult(spec.deltas, spec.events)
  {
    var deltas: map<MisconceptionId, real> := map[];
    var resolutionEvents: seq<MisconceptionId> := [];
    ghost var start := LedgerUpdate(state.ledger, map[], []);

    for i := 0 to |verdicts|
      invariant LedgerUpdate(state.ledger, deltas, resolutionEvents) == AfterVerdicts(start, verdicts[..i])
    {
      deltas, resolutionEvents := ApplyVerdict(state, verdicts[i], deltas, resolutionEvents);
      AfterVerdictsSnoc(start, verdicts[..i], verdicts[i]);
      PrefixSnoc(verdicts, i);
    }
    assert verdicts[..|verdicts|] == verdicts;
    ghost var afterVerdicts := LedgerUpdate(state.ledger, deltas, resolutionEvents);

    ghost var visited: seq<MisconceptionId> := [];
    for j := 0 to |Taxonomy|
      invariant visited == Taxonomy[..j]
      invariant LedgerUpdate(state.ledger, deltas, resolutionEvents) == AfterDecay(afterVerdicts, verdicts, visited)
    {
      var item := Taxonomy[j];
      deltas, resolutionEvents := DecayTag(state, verdicts, item, deltas, resolutionEvents);
      AfterDecaySnoc(afterVerdicts, verdicts, visited, item);
      PrefixSnoc(Taxonomy, j);
      visited := visited + [item];
    }
    assert visited == Taxonomy;
    ApplyVerdictsKeepsValid(start.ledger, verdicts);
    ApplyVerdictsBounded(start.ledger, verdicts);
    result := UpdateResult(deltas, resolutionEvents);
  }

  /** One pass of the loop over the verdicts: the verdict's tag gets its next confidence or resolves. */
  method ApplyVerdict(state: MisconceptionState, v: Verdict,
                      deltas0: map<MisconceptionId, real>, events0: seq<MisconceptionId>)
    returns (deltas: map<MisconceptionId, real>, events: seq<MisconceptionId>)
    modifies state`ledger
    ensures LedgerUpdate(state.ledger, deltas, events) == VerdictStep(LedgerUpdate(old(state.ledger), deltas0, events0), v)
  {
    var ledger := state.ledger;
    var prev := Get(ledger, v.id).GetOr(NeutralConfidence);
    var next := NextConfidence(prev, v.status);
    deltas := deltas0[v.id := Change(prev, next)];
    events := events0;
    if next < ResolutionThreshold {
      ledger, events := Delete(ledger, v.id), events + [v.id];
    } else {
      ledger := Set(ledger, v.id, next);
    }
    state.ledger := ledger;
  }

  /** One pass of the decay loop: `item` decays unless a verdict mentioned it or it is inactive. */
  method DecayTag(state: MisconceptionState, verdicts: seq<Verdict>, item: MisconceptionId,
                  deltas0: map<MisconceptionId, real>, events0: seq<MisconceptionId>)
    returns (deltas: map<MisconceptionId, real>, events: seq<MisconceptionId>)
    modifies state`ledger
    ensures var w := DecayStep(LedgerUpdate(old(state.ledger), deltas0, events0), verdicts, item);
      state.ledger == w.ledger && deltas == w.deltas && events == w.events
  {
    var ledger := state.ledger;
    deltas, events := deltas0, events0;
    DecayStepCases(LedgerUpdate(ledger, deltas0, events0), verdicts, item);
    if !Mentioned(verdicts, item) && Has(ledger, item) {
      var prev := Get(ledger, item).value;
      var next := DecayedConfidence(prev);
      if next < ResolutionThreshold {
        ledger, deltas, events := Delete(ledger, item), deltas[item := -prev], events + [item];
      } else {
        ledger, deltas := Set(ledger, item, next), deltas[item := Change(prev, next)];
      }
    }
    state.ledger := ledger;
  }

  lemma DecayStepCases(u: LedgerUpdate, verdicts: seq<Verdict>, id: MisconceptionId)
    ensures var w := DecayStep(u, verdicts, id);
      if !Mentioned(verdicts, id) && Has(u.ledger, id) then
        var prev := Get(u.ledger, id).value;
        var next := DecayedConfidence(prev);
        if next < ResolutionThreshold then w == LedgerUpdate(Delete(u.ledger, id), u.deltas[id := -prev], u.events + [id])
        else w == LedgerUpdate(Set(u.ledger, id, next), u.deltas[id := Change(prev, next)], u.events)
      else w == u
  {
  }

  datatype TopMisconception = TopMisconception(id: MisconceptionId, confidence: real)

  /**
   * `pickTopMisconception`: the entry with the greatest confidence, the earliest in
   * iteration order among equals, or `None` for an empty ledger.
   */
  method PickTopMisconception(state: MisconceptionState) returns (top: Option<TopMisconception>)
    ensures top.None? <==> state.ledger == []
    ensures top.Some? ==> forall j :: 0 <= j < |state.ledger| ==> state.ledger[j].1 <= top.value.confidence
    ensures top.Some? ==> exists k :: (0 <= k < |state.ledger| && state.ledger[k] == (top.value.id, top.value.confidence)
      && forall j :: 0 <= j < k ==> state.ledger[j].1 < top.value.confidence)
  {
    top := None;
    ghost var at := 0;
    for i := 0 to |state.ledger|
      invariant top.None? <==> i == 0
      invariant top.Some? ==> at < i && state.ledger[at] == (top.value.id, top.value.confidence)
      invariant top.Some? ==> forall j :: 0 <= j < at ==> state.ledger[j].1 < top.value.confidence
      invariant top.Some? ==> forall j :: 0 <= j < i ==> state.ledger[j].1 <= top.value.confidence
    {
      var (id, confidence) := state.ledger[i];
      if top.None? || confidence > top.value.confidence {
        top := Some(TopMisconception(id, confidence));
        at := i;
      }
    }
  }

  datatype Entry = Entry(id: MisconceptionId, confidence: real)

  datatype Snapshot = Snapshot(
    entries: seq<Entry>, learnerConfidence: real, lastQuestion: Option<string>, summary: string, turnIndex: int)

  /** `snapshotState`: the ledger as a list of entries in iteration order, with the scalar fields. */
  function SnapshotState(state: MisconceptionState): (s: Snapshot)
    reads state
    requires state.Valid()
    ensures |s.entries| == |state.ledger|
    ensures forall i :: 0 <= i < |s.entries| ==>
      s.entries[i].id == Keys(state.ledger)[i] && Get(state.ledger, s.entries[i].id) == Some(s.entries[i].confidence)
    ensures s.learnerConfidence == state.learnerConfidence && s.lastQuestion == state.lastQuestion
    ensures s.summary == state.summary && s.turnIndex == state.turnIndex
  {
    var entries := seq(|state.ledger|, i requires 0 <= i < |state.ledger| reads state =>
      Entry(state.ledger[i].0, state.ledger[i].1));
    assert forall i :: 0 <= i < |entries| ==> Get(state.ledger, entries[i].id) == Some(entries[i].confidence) by {
      forall i | 0 <= i < |entries| ensures Get(state.ledger, entries[i].id) == Some(entries[i].confidence) {
        GetEntry(state.ledger, i);
      }
    }
    Snapshot(entries, state.learnerConfidence, state.lastQuestion, state.summary, state.turnIndex)
  }

  // ------------------------------------------------------------------ properties of applyVerdicts

  /** Every tag has a place in the taxonomy, and only one. */
  lemma TaxonomyListsEveryTagOnce()
    ensures forall id :: id in Taxonomy
    ensures Distinct(Taxonomy)
  {
    forall id ensures id in Taxonomy {
      var i := match id
        case OffByOne => 0
        case MutationVsReassignment => 1
        case ReturnVsPrint => 2
        case AsyncVsParallel => 3
        case NullChecks => 4
        case ScopeShadowing => 5
        case Statefulness => 6
        case SideEffects => 7;
      assert Taxonomy[i] == id;
    }
  }

  predicate InBounds(c: real) {
    ResolutionThreshold <= c <= 1.0
  }

  /** A tag is mentioned exactly when some verdict in the list carries it. */
  lemma {:induction false} MentionedIff(vs: seq<Verdict>, id: MisconceptionId)
    ensures Mentioned(vs, id) <==> exists i :: 0 <= i < |vs| && vs[i].id == id
  {
    if vs != [] {
      MentionedIff(vs[1..], id);
      if Mentioned(vs[1..], id) {
        var i :| 0 <= i < |vs[1..]| && vs[1..][i].id == id;
        assert vs[i + 1].id == id;
      }
      if exists i :: 0 <= i < |vs| && vs[i].id == id {
        var i :| 0 <= i < |vs| && vs[i].id == id;
        if i > 0 {
          assert vs[1..][i - 1].id == id;
        }
      }
    }
  }

  lemma MentionedSnoc(vs: seq<Verdict>, v: Verdict, id: MisconceptionId)
    ensures Mentioned(vs + [v], id) <==> Mentioned(vs, id) || v.id == id
  {
    MentionedIff(vs + [v], id);
    MentionedIff(vs, id);
    if Mentioned(vs, id) {
      var i :| 0 <= i < |vs| && vs[i].id == id;
      assert (vs + [v])[i].id == id;
    }
    if v.id == id {
      assert (vs + [v])[|vs|].id == id;
    }
    if Mentioned(vs + [v], id) {
      var i :| 0 <= i < |vs + [v]| && (vs + [v])[i].id == id;
      if i < |vs| {
        assert vs[i].id == id;
      }
    }
  }

  /** After the verdict loop a mentioned tag that is still active is in bounds, an unmentioned one is untouched. */
  lemma {:induction false} VerdictPassTouchesOnlyMentioned(m: Ledger, vs: seq<Verdict>)
    requires OrderedMap.Valid(m)
    ensures var u := AfterVerdicts(LedgerUpdate(m, map[], []), vs);
      && OrderedMap.Valid(u.ledger)
      && (forall k :: Has(u.ledger, k) && Mentioned(vs, k) ==> InBounds(Get(u.ledger, k).value))
      && (forall k :: !Mentioned(vs, k) ==> Get(u.ledger, k) == Get(m, k) && k !in u.deltas && k !in u.events)
    decreases |vs|
  {
    if vs != [] {
      var init, v := vs[..|vs| - 1], vs[|vs| - 1];
      assert vs == init + [v];
      VerdictPassTouchesOnlyMentioned(m, init);
      VerdictStepKeeps(AfterVerdicts(LedgerUpdate(m, map[], []), init), v);
      forall k ensures Mentioned(vs, k) <==> Mentioned(init, k) || v.id == k {
        MentionedSnoc(init, v, k);
      }
    }
  }

  /** One verdict keeps keys unique, leaves its tag in bounds if still active, and touches no other tag. */
  lemma VerdictStepKeeps(u: LedgerUpdate, v: Verdict)
    requires OrderedMap.Valid(u.ledger)
    ensures var w := VerdictStep(u, v);
      && OrderedMap.Valid(w.ledger)
      && (Has(w.ledger, v.id) ==> InBounds(Get(w.ledger, v.id).value))
      && (forall k :: k != v.id ==> Get(w.ledger, k) == Get(u.ledger, k))
      && (forall k :: k != v.id ==> (k in w.deltas <==> k in u.deltas) && (k in w.events <==> k in u.events))
  {
    var prev := Get(u.ledger, v.id).GetOr(NeutralConfidence);
    var next := NextConfidence(prev, v.status);
    if next < ResolutionThreshold {
      DeleteKeepsValid(u.ledger, v.id);
    } else {
      SetKeepsValid(u.ledger, v.id, next);
    }
  }

  /** The decay loop leaves every mentioned tag, every inactive tag and every tag it does not visit exactly as it was. */
  lemma {:induction false} DecayPassKeepsOthers(u: LedgerUpdate, vs: seq<Verdict>, ids: seq<MisconceptionId>, k: MisconceptionId)
    requires Mentioned(vs, k) || k !in ids || !Has(u.ledger, k)
    ensures var w := AfterDecay(u, vs, ids);
      && Get(w.ledger, k) == Get(u.ledger, k)
      && (k in w.deltas <==> k in u.deltas) && (k in u.deltas ==> w.deltas[k] == u.deltas[k])
      && u.events <= w.events
      && (k in w.events <==> k in u.events)
    decreases |ids|
  {
    if ids != [] {
      var init, last := ids[..|ids| - 1], ids[|ids| - 1];
      assert ids == init + [last];
      DecayPassKeepsOthers(u, vs, init, k);
      var w0 := AfterDecay(u, vs, init);
      assert AfterDecay(u, vs, ids) == DecayStep(w0, vs, last);
      if k != last {
        DecayStepKeepsOthers(w0, vs, last, k);
      } else {
        assert DecayStep(w0, vs, last) == w0;
      }
    }
  }

  /** The decay loop keeps keys unique and puts every mentioned or visited active tag in bounds. */
  lemma {:induction false} DecayPassBounds(u: LedgerUpdate, vs: seq<Verdict>, ids: seq<MisconceptionId>)
    requires OrderedMap.Valid(u.ledger)
    requires forall k :: Has(u.ledger, k) && Mentioned(vs, k) ==> InBounds(Get(u.ledger, k).value)
    ensures var w := AfterDecay(u, vs, ids);
      && OrderedMap.Valid(w.ledger)
      && forall k :: Has(w.ledger, k) && (Mentioned(vs, k) || k in ids) ==> InBounds(Get(w.ledger, k).value)
    decreases |ids|
  {
    if ids != [] {
      var init, id := ids[..|ids| - 1], ids[|ids| - 1];
      assert ids == init + [id];
      DecayPassBounds(u, vs, init);
      var w0 := AfterDecay(u, vs, init);
      if !Mentioned(vs, id) && Has(w0.ledger, id) {
        var next := DecayedConfidence(Get(w0.ledger, id).value);
        if next < ResolutionThreshold {
          DeleteKeepsValid(w0.ledger, id);
        } else {
          SetKeepsValid(w0.ledger, id, next);
        }
      }
    }
  }

  /** `applyVerdicts` keeps the ledger a map with unique keys. */
  lemma ApplyVerdictsKeepsValid(m: Ledger, vs: seq<Verdict>)
    requires OrderedMap.Valid(m)
    ensures OrderedMap.Valid(ApplyVerdictsSpec(m, vs).ledger)
  {
    VerdictPassTouchesOnlyMentioned(m, vs);
    DecayPassBounds(AfterVerdicts(LedgerUpdate(m, map[], []), vs), vs, Taxonomy);
  }

  /** After `applyVerdicts` every confidence left in the ledger lies in [0.18, 1]. */
  lemma ApplyVerdictsBounded(m: Ledger, vs: seq<Verdict>)
    requires OrderedMap.Valid(m)
    ensures var r := ApplyVerdictsSpec(m, vs).ledger;
      forall i :: 0 <= i < |r| ==> 0.18 <= r[i].1 <= 1.0
  {
    VerdictPassTouchesOnlyMentioned(m, vs);
    var u := AfterVerdicts(LedgerUpdate(m, map[], []), vs);
    DecayPassBounds(u, vs, Taxonomy);
    var r := ApplyVerdictsSpec(m, vs).ledger;
    TaxonomyListsEveryTagOnce();
    forall i | 0 <= i < |r| ensures 0.18 <= r[i].1 <= 1.0 {
      GetEntry(r, i);
      assert Has(r, r[i].0);
    }
  }

  /** One verdict: the delta is next - prev, and the tag either resolves or takes the new value; no other tag changes. */
  lemma VerdictStepRule(u: LedgerUpdate, v: Verdict)
    ensures var w := VerdictStep(u, v);
      var prev := Get(u.ledger, v.id).GetOr(NeutralConfidence);
      var next := NextConfidence(prev, v.status);
      && (!Has(u.ledger, v.id) ==> prev == 0.32)
      && v.id in w.deltas && w.deltas[v.id] == next - prev
      && (next < 0.18 ==> !Has(w.ledger, v.id) && w.events == u.events + [v.id])
      && (next >= 0.18 ==> Get(w.ledger, v.id) == Some(next) && w.events == u.events)
      && (forall k :: k != v.id ==> Get(w.ledger, k) == Get(u.ledger, k))
      && (forall k :: k != v.id && k in u.deltas ==> k in w.deltas && w.deltas[k] == u.deltas[k])
  {
  }

  /** A `weakened` verdict on a tag that was not active resolves it at once: 0.32 - 0.18 = 0.14 < 0.18. */
  lemma WeakenedOnInactiveTagResolves(u: LedgerUpdate, v: Verdict)
    requires v.status == Weakened && !Has(u.ledger, v.id)
    ensures var w := VerdictStep(u, v);
      && !Has(w.ledger, v.id) && w.events == u.events + [v.id] && w.deltas[v.id] == -0.18
  {
    VerdictStepRule(u, v);
  }

  /** A `new` verdict puts a tag at 0.43 whatever its prior confidence, and never resolves it. */
  lemma NewVerdictGivesFixedConfidence(u: LedgerUpdate, v: Verdict)
    requires v.status == New
    ensures var w := VerdictStep(u, v);
      && Get(w.ledger, v.id) == Some(0.43) && w.events == u.events
  {
    VerdictStepRule(u, v);
  }

  /** The decay loop over `a + b` is the loop over `a` followed by the loop over `b`. */
  lemma {:induction false} AfterDecayAppend(u: LedgerUpdate, vs: seq<Verdict>, a: seq<MisconceptionId>, b: seq<MisconceptionId>)
    ensures AfterDecay(u, vs, a + b) == AfterDecay(AfterDecay(u, vs, a), vs, b)
    decreases |b|
  {
    if b != [] {
      var init, last := b[..|b| - 1], b[|b| - 1];
      assert (a + b)[..|a + b| - 1] == a + init;
      assert (a + b)[|a + b| - 1] == last;
      AfterDecayAppend(u, vs, a, init);
      calc {
        AfterDecay(u, vs, a + b);
        DecayStep(AfterDecay(u, vs, a + init), vs, last);
        DecayStep(AfterDecay(AfterDecay(u, vs, a), vs, init), vs, last);
        AfterDecay(AfterDecay(u, vs, a), vs, b);
      }
    } else {
      assert a + b == a;
    }
  }

  /** Whether the decay loop resolves `id`, judged on the ledger the loop starts from. */
  predicate ResolvesByDecay(ledger: Ledger, vs: seq<Verdict>, id: MisconceptionId) {
    !Mentioned(vs, id) && Has(ledger, id) && DecayedConfidence(Get(ledger, id).value) < ResolutionThreshold
  }

  /** The tags of `ids` that the decay loop resolves, in the order of `ids`. */
  function DecayResolutions(ledger: Ledger, vs: seq<Verdict>, ids: seq<MisconceptionId>): (r: seq<MisconceptionId>)
    ensures forall k :: k in r <==> k in ids && ResolvesByDecay(ledger, vs, k)
    decreases |ids|
  {
    if ids == [] then []
    else
      var init, last := ids[..|ids| - 1], ids[|ids| - 1];
      assert ids == init + [last];
      DecayResolutions(ledger, vs, init) + if ResolvesByDecay(ledger, vs, last) then [last] else []
  }

  /** The last of distinct tags does not occur before it. */
  lemma LastNotInInit(ids: seq<MisconceptionId>)
    requires Distinct(ids) && ids != []
    ensures Distinct(ids[..|ids| - 1]) && ids[|ids| - 1] !in ids[..|ids| - 1]
  {
    var init := ids[..|ids| - 1];
    forall i | 0 <= i < |init| ensures init[i] != ids[|ids| - 1] {
      assert ids[i] != ids[|ids| - 1];
    }
  }

  /** Over distinct tags, the resolution events the decay loop adds are the resolving tags in the order they are visited. */
  lemma {:induction false} DecayPassEvents(u: LedgerUpdate, vs: seq<Verdict>, ids: seq<MisconceptionId>)
    requires Distinct(ids)
    ensures AfterDecay(u, vs, ids).events == u.events + DecayResolutions(u.ledger, vs, ids)
    decreases |ids|
  {
    if ids != [] {
      var init, last := ids[..|ids| - 1], ids[|ids| - 1];
      LastNotInInit(ids);
      DecayPassEvents(u, vs, init);
      DecayPassKeepsOthers(u, vs, init, last);
    }
  }

  /**
   * Over distinct tags, each unmentioned active tag decays exactly once, from the value it had when the
   * loop started.
   */
  lemma {:induction false} DecayPassVisitsOnce(u: LedgerUpdate, vs: seq<Verdict>, ids: seq<MisconceptionId>, k: MisconceptionId)
    requires Distinct(ids) && k in ids && !Mentioned(vs, k) && Has(u.ledger, k)
    ensures var w := AfterDecay(u, vs, ids);
      var prev := Get(u.ledger, k).value;
      var next := DecayedConfidence(prev);
      && k in w.deltas
      && (next < ResolutionThreshold ==> !Has(w.ledger, k) && w.deltas[k] == -prev)
      && (next >= ResolutionThreshold ==> Get(w.ledger, k) == Some(next) && w.deltas[k] == next - prev)
    decreases |ids|
  {
    var init, last := ids[..|ids| - 1], ids[|ids| - 1];
    LastNotInInit(ids);
    var w0 := AfterDecay(u, vs, init);
    assert AfterDecay(u, vs, ids) == DecayStep(w0, vs, last);
    if k == last {
      DecayPassKeepsOthers(u, vs, init, k);
      assert Get(w0.ledger, k) == Get(u.ledger, k);
    } else {
      assert k in init;
      DecayPassVisitsOnce(u, vs, init, k);
      DecayStepKeepsOthers(w0, vs, last, k);
    }
  }

  /** One decay step changes nothing about any other tag. */
  lemma DecayStepKeepsOthers(u: LedgerUpdate, vs: seq<Verdict>, id: MisconceptionId, k: MisconceptionId)
    requires k != id
    ensures var w := DecayStep(u, vs, id);
      && Get(w.ledger, k) == Get(u.ledger, k)
      && (k in w.deltas <==> k in u.deltas) && (k in u.deltas ==> w.deltas[k] == u.deltas[k])
      && u.events <= w.events && (k in w.events <==> k in u.events)
  {
  }

  /**
   * An unmentioned tag: if it was active its confidence is multiplied by 0.9 once, and it resolves with
   * delta -prev exactly when that falls below 0.18, otherwise its delta is next - prev; if it was not
   * active it stays out of the ledger, the deltas and the events.
   */
  lemma UnmentionedTagDecaysOnce(m: Ledger, vs: seq<Verdict>, k: MisconceptionId)
    requires OrderedMap.Valid(m) && !Mentioned(vs, k)
    ensures var r := ApplyVerdictsSpec(m, vs);
      && (Has(m, k) ==>
        var prev := Get(m, k).value;
        var next := DecayedConfidence(prev);
        && (next < 0.18 ==> !Has(r.ledger, k) && k in r.events && k in r.deltas && r.deltas[k] == -prev)
        && (next >= 0.18 ==> Get(r.ledger, k) == Some(next) && k !in r.events && k in r.deltas && r.deltas[k] == next - prev))
      && (!Has(m, k) ==> !Has(r.ledger, k) && k !in r.deltas && k !in r.events)
  {
    VerdictPassTouchesOnlyMentioned(m, vs);
    var u := AfterVerdicts(LedgerUpdate(m, map[], []), vs);
    assert Get(u.ledger, k) == Get(m, k) && k !in u.deltas && k !in u.events;
    if Has(m, k) {
      TaxonomyListsEveryTagOnce();
      DecayPassVisitsOnce(u, vs, Taxonomy, k);
      DecayPassEvents(u, vs, Taxonomy);
    } else {
      DecayPassKeepsOthers(u, vs, Taxonomy, k);
    }
  }

  /**
   * The resolution events are those of the verdict loop followed by the unmentioned tags that decay
   * below 0.18, in taxonomy order.
   */
  lemma DecayEventsInTaxonomyOrder(m: Ledger, vs: seq<Verdict>)
    ensures var u := AfterVerdicts(LedgerUpdate(m, map[], []), vs);
      ApplyVerdictsSpec(m, vs).events == u.events + DecayResolutions(u.ledger, vs, Taxonomy)
  {
    TaxonomyListsEveryTagOnce();
    DecayPassEvents(AfterVerdicts(LedgerUpdate(m, map[], []), vs), vs, Taxonomy);
  }

  /** The threshold test is strict: an unmentioned tag at 0.2 decays to exactly 0.18 and stays active. */
  lemma DecayToThresholdStaysActive(m: Ledger, vs: seq<Verdict>, k: MisconceptionId)
    requires OrderedMap.Valid(m) && !Mentioned(vs, k) && Get(m, k) == Some(0.2)
    ensures var r := ApplyVerdictsSpec(m, vs);
      Get(r.ledger, k) == Some(0.18) && k !in r.events
  {
    UnmentionedTagDecaysOnce(m, vs, k);
  }
}
