/** Where the findings and the log of a review come from, said without assembling them: each
    place in the answers that holds a candidate yields one finding, each place that holds an
    entry one line of the log, in the order of the places. */
module Provenance {
  import opened Wrappers
  import opened Text
  import opened Findings
  import opened Oracle
  import opened SeverityPolicy
  import opened Selections
  import opened Sweeps
  import opened Assembly

  /** A place: which list, of which row if it is a list for each row, and where in it. */
  datatype Slot = Slot(group: nat, row: string, index: nat)

  predicate Precedes(a: Slot, b: Slot) {
    || a.group < b.group
    || (a.group == b.group && a.row != b.row && Leq(a.row, b.row))
    || (a.group == b.group && a.row == b.row && a.index < b.index)
  }

  predicate InOrder(slots: seq<Slot>) {
    forall i, j | 0 <= i < j < |slots| :: Precedes(slots[i], slots[j])
  }

  /** `slots` are the places of the groups from `lo` to `hi` that hold something, in order,
      and `values` is what they hold. */
  ghost predicate Lists<T>(at: Slot -> Option<T>, lo: nat, hi: nat, values: seq<T>, slots: seq<Slot>) {
    && InOrder(slots) && |slots| == |values|
    && (forall slot :: slot in slots <==> lo <= slot.group < hi && at(slot).Some?)
    && forall k | 0 <= k < |slots| :: at(slots[k]) == Some(values[k])
  }

  lemma ListsJoin<T>(at: Slot -> Option<T>, lo: nat, mid: nat, hi: nat, v: seq<T>, s: seq<Slot>, w: seq<T>,
                     t: seq<Slot>)
    requires lo <= mid <= hi && Lists(at, lo, mid, v, s) && Lists(at, mid, hi, w, t)
    ensures Lists(at, lo, hi, v + w, s + t)
  {
    assert forall i | 0 <= i < |s| :: s[i] in s;
    assert forall i | 0 <= i < |t| :: t[i] in t;
    assert InOrder(s + t);
    forall slot ensures slot in s + t <==> slot in s || slot in t {}
  }

  lemma ListsNothing<T>(at: Slot -> Option<T>, g: nat)
    requires forall slot: Slot | slot.group == g :: at(slot).None?
    ensures Lists(at, g, g + 1, [], [])
  {
  }

  function PlainSlots(g: nat, row: string, n: nat): (slots: seq<Slot>)
    ensures |slots| == n && forall i | 0 <= i < n :: slots[i] == Slot(g, row, i)
  {
    seq(n, i requires 0 <= i < n => Slot(g, row, i))
  }

  lemma InPlainSlots(g: nat, row: string, n: nat, slot: Slot)
    ensures slot in PlainSlots(g, row, n) <==> slot.group == g && slot.row == row && slot.index < n
  {
    if slot.group == g && slot.row == row && slot.index < n {
      assert PlainSlots(g, row, n)[slot.index] == slot;
    }
  }

  /** What a list holds at a place of its own. */
  function Within<T>(list: seq<T>, slot: Slot): Option<T> {
    if slot.row == "" && slot.index < |list| then Some(list[slot.index]) else None
  }

  lemma ListsPlain<T>(at: Slot -> Option<T>, g: nat, list: seq<T>)
    requires forall slot: Slot | slot.group == g :: at(slot) == Within(list, slot)
    ensures Lists(at, g, g + 1, list, PlainSlots(g, "", |list|))
  {
    var slots := PlainSlots(g, "", |list|);
    forall slot ensures slot in slots <==> g <= slot.group < g + 1 && at(slot).Some? {
      InPlainSlots(g, "", |list|, slot);
    }
  }

  lemma ListsChosen<T>(at: Slot -> Option<T>, g: nat, n: nat, ix: seq<nat>, values: seq<T>) returns (slots: seq<Slot>)
    requires Ascending(ix) && |ix| == |values|
    requires forall slot: Slot | slot.group == g :: at(slot).Some? <==> slot.row == "" && slot.index in ix
    requires forall k | 0 <= k < |ix| :: at(Slot(g, "", ix[k])) == Some(values[k])
    ensures Lists(at, g, g + 1, values, slots)
  {
    slots := seq(|ix|, k requires 0 <= k < |ix| => Slot(g, "", ix[k]));
    forall slot ensures slot in slots <==> g <= slot.group < g + 1 && at(slot).Some? {
      if slot.group == g && at(slot).Some? {
        var k :| 0 <= k < |ix| && ix[k] == slot.index;
        assert slots[k] == slot;
      }
      if slot in slots {
        var k :| 0 <= k < |slots| && slots[k] == slot;
        assert ix[k] in ix;
      }
    }
  }

  // ---- Lists for each row ------------------------------------------------

  /** The rows' lists, one after the other. */
  function Flat<T>(lists: map<string, seq<T>>, ids: seq<string>): seq<T>
    requires forall i | 0 <= i < |ids| :: ids[i] in lists
  {
    if ids == [] then [] else Flat(lists, ids[..|ids| - 1]) + lists[ids[|ids| - 1]]
  }

  function RowSlots<T>(g: nat, lists: map<string, seq<T>>, ids: seq<string>): seq<Slot>
    requires forall i | 0 <= i < |ids| :: ids[i] in lists
  {
    if ids == [] then []
    else
      var id := ids[|ids| - 1];
      RowSlots(g, lists, ids[..|ids| - 1]) + PlainSlots(g, id, |lists[id]|)
  }

  predicate SortedIds(ids: seq<string>) {
    forall i, j | 0 <= i < j < |ids| :: Leq(ids[i], ids[j]) && ids[i] != ids[j]
  }

  lemma {:induction false} InRowSlots<T>(g: nat, lists: map<string, seq<T>>, ids: seq<string>, slot: Slot)
    requires forall i | 0 <= i < |ids| :: ids[i] in lists
    ensures slot in RowSlots(g, lists, ids)
       <==> slot.group == g && slot.row in ids && slot.index < |lists[slot.row]|
  {
    if ids != [] {
      var init, id := ids[..|ids| - 1], ids[|ids| - 1];
      InRowSlots(g, lists, init, slot);
      InPlainSlots(g, id, |lists[id]|, slot);
      assert ids == init + [id];
      assert slot.row in ids <==> slot.row in init || slot.row == id;
    }
  }

  lemma {:induction false} RowSlotsInOrder<T>(g: nat, lists: map<string, seq<T>>, ids: seq<string>)
    requires forall i | 0 <= i < |ids| :: ids[i] in lists
    requires SortedIds(ids)
    ensures InOrder(RowSlots(g, lists, ids))
  {
    if ids != [] {
      var n := |ids| - 1;
      var init, id := ids[..n], ids[n];
      var s, t := RowSlots(g, lists, init), PlainSlots(g, id, |lists[id]|);
      assert SortedIds(init);
      RowSlotsInOrder(g, lists, init);
      forall i, j | 0 <= i < |s| && 0 <= j < |t| ensures Precedes(s[i], t[j]) {
        assert s[i] in s;
        InRowSlots(g, lists, init, s[i]);
        var k :| 0 <= k < n && ids[k] == s[i].row;
        assert Leq(ids[k], ids[n]) && ids[k] != ids[n];
      }
      assert RowSlots(g, lists, ids) == s + t;
    }
  }

  lemma {:induction false} FlatAt<T>(at: Slot -> Option<T>, g: nat, lists: map<string, seq<T>>, ids: seq<string>)
    requires forall i | 0 <= i < |ids| :: ids[i] in lists
    requires forall id, i: nat | id in lists && i < |lists[id]| :: at(Slot(g, id, i)) == Some(lists[id][i])
    ensures |RowSlots(g, lists, ids)| == |Flat(lists, ids)|
    ensures forall k | 0 <= k < |RowSlots(g, lists, ids)| ::
      at(RowSlots(g, lists, ids)[k]) == Some(Flat(lists, ids)[k])
  {
    if ids != [] {
      var init, id := ids[..|ids| - 1], ids[|ids| - 1];
      FlatAt(at, g, lists, init);
      var s, t := RowSlots(g, lists, init), PlainSlots(g, id, |lists[id]|);
      assert RowSlots(g, lists, ids) == s + t && Flat(lists, ids) == Flat(lists, init) + lists[id];
      assert forall k | 0 <= k < |t| :: at(t[k]) == Some(lists[id][k]);
    }
  }

  lemma ListsRows<T>(at: Slot -> Option<T>, g: nat, lists: map<string, seq<T>>, ids: seq<string>)
    requires (forall id :: id in ids <==> id in lists) && SortedIds(ids)
    requires forall slot: Slot | slot.group == g ::
      at(slot) == if slot.row in lists && slot.index < |lists[slot.row]| then Some(lists[slot.row][slot.index])
                  else None
    ensures forall i | 0 <= i < |ids| :: ids[i] in lists
    ensures Lists(at, g, g + 1, Flat(lists, ids), RowSlots(g, lists, ids))
  {
    assert forall i | 0 <= i < |ids| :: ids[i] in ids;
    RowSlotsInOrder(g, lists, ids);
    FlatAt(at, g, lists, ids);
    var slots := RowSlots(g, lists, ids);
    hide RowSlots, Flat;
    forall slot ensures slot in slots <==> g <= slot.group < g + 1 && at(slot).Some? {
      InRowSlots(g, lists, ids, slot);
    }
  }

  // ---- Candidates --------------------------------------------------------

  function OptionWithin<T>(list: seq<Option<T>>, slot: Slot): Option<T> {
    if slot.row == "" && slot.index < |list| then list[slot.index] else None
  }

  /** The candidate at a place: the harness's own first, then those of the rows, the two
      source-quality lists and the two judgement lists. */
  function CandidateAt(snap: Snapshot, deterministic: seq<CandidateFinding>, slot: Slot): Option<CandidateFinding> {
    if slot.group == 0 then Within(deterministic, slot)
    else if slot.group == 1 then
      if slot.row in snap.rows && slot.index < |snap.rows[slot.row].findings|
      then Some(snap.rows[slot.row].findings[slot.index]) else None
    else if slot.group == 2 && snap.sourceQuality.Some? then
      Within(snap.sourceQuality.value.loadBearingViolations, slot)
    else if slot.group == 3 && snap.sourceQuality.Some? then
      Within(snap.sourceQuality.value.regimeBreakFindings, slot)
    else if slot.group == 4 && snap.judgement.Some? then OptionWithin(snap.judgement.value.baselines, slot)
    else if slot.group == 5 && snap.judgement.Some? then OptionWithin(snap.judgement.value.falsifiability, slot)
    else None
  }

  /** A candidate with the row it falls back to, and whose it is. */
  function TagFor(c: CandidateFinding, slot: Slot): Tagged {
    Tagged(c, if slot.group == 1 then Some(slot.row) else None, if slot.group == 0 then Deterministic else Llm)
  }

  function TagAt(snap: Snapshot, deterministic: seq<CandidateFinding>, slot: Slot): Option<Tagged> {
    match CandidateAt(snap, deterministic, slot)
    case Some(c) => Some(TagFor(c, slot))
    case None => None
  }

  lemma {:induction false} TagRowsAreFlat(rows: map<string, RowDisposition>, lists: map<string, seq<Tagged>>,
                                          ids: seq<string>)
    requires lists.Keys == rows.Keys && forall id | id in rows :: lists[id] == TagAll(rows[id].findings, Some(id), Llm)
    requires forall i | 0 <= i < |ids| :: ids[i] in rows
    ensures TagRows(rows, ids) == Flat(lists, ids)
  {
    if ids != [] {
      TagRowsAreFlat(rows, lists, ids[..|ids| - 1]);
    }
  }

  lemma SortedKeys(rows: map<string, RowDisposition>)
    ensures var ids := Sorted(rows.Keys);
      && (forall id :: id in ids <==> id in rows) && SortedIds(ids)
      && forall i | 0 <= i < |ids| :: ids[i] in rows
  {
    var ids := Sorted(rows.Keys);
    forall i | 0 <= i < |ids| ensures ids[i] in rows { assert ids[i] in ids; }
  }

  lemma TagAtRow(snap: Snapshot, deterministic: seq<CandidateFinding>, slot: Slot)
    requires slot.group == 1
    ensures TagAt(snap, deterministic, slot)
         == if slot.row in snap.rows && slot.index < |snap.rows[slot.row].findings|
            then Some(Tagged(snap.rows[slot.row].findings[slot.index], Some(slot.row), Llm)) else None
  {
  }

  lemma RowTagsListed(snap: Snapshot, deterministic: seq<CandidateFinding>) returns (slots: seq<Slot>)
    ensures (forall i | 0 <= i < |Sorted(snap.rows.Keys)| :: Sorted(snap.rows.Keys)[i] in snap.rows)
    ensures Lists(slot => TagAt(snap, deterministic, slot), 1, 2, TagRows(snap.rows, Sorted(snap.rows.Keys)), slots)
  {
    hide *;
    var at := (slot: Slot) => TagAt(snap, deterministic, slot);
    var lists := map id | id in snap.rows :: TagAll(snap.rows[id].findings, Some(id), Llm);
    var ids := Sorted(snap.rows.Keys);
    SortedKeys(snap.rows);
    forall slot: Slot | slot.group == 1
      ensures at(slot) == if slot.row in lists && slot.index < |lists[slot.row]|
                          then Some(lists[slot.row][slot.index]) else None
    {
      TagAtRow(snap, deterministic, slot);
    }
    ListsRows(at, 1, lists, ids);
    TagRowsAreFlat(snap.rows, lists, ids);
    slots := RowSlots(1, lists, ids);
  }

  lemma PlainTagsListed(snap: Snapshot, deterministic: seq<CandidateFinding>, g: nat, list: seq<CandidateFinding>)
    requires g != 1 && forall slot: Slot | slot.group == g ::
      CandidateAt(snap, deterministic, slot) == Within(list, slot)
    ensures Lists(slot => TagAt(snap, deterministic, slot), g, g + 1,
                  TagAll(list, None, if g == 0 then Deterministic else Llm), PlainSlots(g, "", |list|))
  {
    var at := (slot: Slot) => TagAt(snap, deterministic, slot);
    var tags := TagAll(list, None, if g == 0 then Deterministic else Llm);
    assert forall slot: Slot | slot.group == g :: at(slot) == Within(tags, slot);
    hide CandidateAt;
    ListsPlain(at, g, tags);
  }

  lemma NoTagsListed(snap: Snapshot, deterministic: seq<CandidateFinding>, g: nat)
    requires forall slot: Slot | slot.group == g :: CandidateAt(snap, deterministic, slot).None?
    ensures Lists(slot => TagAt(snap, deterministic, slot), g, g + 1, [], [])
  {
    hide CandidateAt;
    ListsNothing((slot: Slot) => TagAt(snap, deterministic, slot), g);
  }

  lemma TagOptionsStep(os: seq<Option<CandidateFinding>>)
    requires os != []
    ensures var n := |os| - 1;
      TagOptions(os) == if os[n].Some? then TagOptions(os[..n]) + [Tagged(os[n].value, None, Llm)]
                        else TagOptions(os[..n])
  {
    var n := |os| - 1;
    assert TagOptions(os[..n]) + [] == TagOptions(os[..n]);
  }

  /** `ix` lists the places that hold a candidate, `tags` the candidates. */
  ghost predicate ArePlaces(ix: seq<nat>, os: seq<Option<CandidateFinding>>, tags: seq<Tagged>) {
    && Ascending(ix) && |ix| == |tags|
    && (forall i: nat :: i in ix <==> i < |os| && os[i].Some?)
    && (forall k | 0 <= k < |ix| ::
          ix[k] < |os| && os[ix[k]].Some? && tags[k] == Tagged(os[ix[k]].value, None, Llm))
  }

  lemma PlacesStep(ix: seq<nat>, os: seq<Option<CandidateFinding>>, tags: seq<Tagged>, o: Option<CandidateFinding>)
    requires ArePlaces(ix, os, tags)
    ensures o.None? ==> ArePlaces(ix, os + [o], tags)
    ensures o.Some? ==> ArePlaces(ix + [|os|], os + [o], tags + [Tagged(o.value, None, Llm)])
  {
    var all := os + [o];
    assert all[|os|] == o;
    assert forall i | 0 <= i < |os| :: all[i] == os[i];
    forall i: nat ensures i in ix + [|os|] <==> i in ix || i == |os| { InAppend(ix, |os|, i); }
  }

  lemma {:induction false} OptionPlaces(os: seq<Option<CandidateFinding>>) returns (ix: seq<nat>)
    ensures ArePlaces(ix, os, TagOptions(os))
  {
    if os == [] {
      ix := [];
    } else {
      var n := |os| - 1;
      ix := OptionPlaces(os[..n]);
      assert os == os[..n] + [os[n]];
      TagOptionsStep(os);
      hide ArePlaces, TagOptions;
      PlacesStep(ix, os[..n], TagOptions(os[..n]), os[n]);
      if os[n].Some? {
        ix := ix + [n];
      }
    }
  }

  lemma OptionTagsListed(snap: Snapshot, deterministic: seq<CandidateFinding>, g: nat,
                         os: seq<Option<CandidateFinding>>) returns (slots: seq<Slot>)
    requires g > 1 && forall slot: Slot | slot.group == g ::
      CandidateAt(snap, deterministic, slot) == OptionWithin(os, slot)
    ensures Lists(slot => TagAt(snap, deterministic, slot), g, g + 1, TagOptions(os), slots)
  {
    hide CandidateAt, TagOptions;
    var ix := OptionPlaces(os);
    slots := ListsChosen((slot: Slot) => TagAt(snap, deterministic, slot), g, |os|, ix, TagOptions(os));
  }

  /** The tagged candidates of a working set, in the order of their places. */
  lemma TagsListed(snap: Snapshot, deterministic: seq<CandidateFinding>) returns (slots: seq<Slot>)
    ensures Lists(slot => TagAt(snap, deterministic, slot), 0, 6, Tags(snap, deterministic), slots)
  {
    var at := (slot: Slot) => TagAt(snap, deterministic, slot);
    var fixed := TagAll(deterministic, None, Deterministic);
    var rows := TagRows(snap.rows, Sorted(snap.rows.Keys));
    PlainTagsListed(snap, deterministic, 0, deterministic);
    var rowSlots := RowTagsListed(snap, deterministic);
    var quality, qualitySlots := QualityTagsListed(snap, deterministic);
    var judged, judgedSlots := JudgedTagsListed(snap, deterministic);
    var plain := PlainSlots(0, "", |deterministic|);
    assert Tags(snap, deterministic) == fixed + ((rows + quality) + judged);
    hide *;
    ListsJoin(at, 1, 2, 4, rows, rowSlots, quality, qualitySlots);
    ListsJoin(at, 1, 4, 6, rows + quality, rowSlots + qualitySlots, judged, judgedSlots);
    slots := plain + (rowSlots + qualitySlots + judgedSlots);
    ListsJoin(at, 0, 1, 6, fixed, plain, rows + quality + judged, rowSlots + qualitySlots + judgedSlots);
  }

  lemma QualityTagsListed(snap: Snapshot, deterministic: seq<CandidateFinding>)
    returns (tags: seq<Tagged>, slots: seq<Slot>)
    ensures Lists(slot => TagAt(snap, deterministic, slot), 2, 4, tags, slots)
    ensures tags == if snap.sourceQuality.Some? then
        TagAll(snap.sourceQuality.value.loadBearingViolations
               + snap.sourceQuality.value.regimeBreakFindings, None, Llm)
      else []
  {
    var at := (slot: Slot) => TagAt(snap, deterministic, slot);
    if snap.sourceQuality.Some? {
      var q := snap.sourceQuality.value;
      var a, b := TagAll(q.loadBearingViolations, None, Llm), TagAll(q.regimeBreakFindings, None, Llm);
      assert TagAll(q.loadBearingViolations + q.regimeBreakFindings, None, Llm) == a + b;
      PlainTagsListed(snap, deterministic, 2, q.loadBearingViolations);
      PlainTagsListed(snap, deterministic, 3, q.regimeBreakFindings);
      tags := a + b;
      var s, t := PlainSlots(2, "", |q.loadBearingViolations|), PlainSlots(3, "", |q.regimeBreakFindings|);
      slots := s + t;
      hide Lists, TagAll, TagAt;
      ListsJoin(at, 2, 3, 4, a, s, b, t);
    } else {
      NoTagsListed(snap, deterministic, 2);
      NoTagsListed(snap, deterministic, 3);
      tags, slots := [], [];
      hide Lists, TagAt;
      ListsJoin(at, 2, 3, 4, [], [], [], []);
      assert [] + tags == tags && [] + slots == slots;
    }
  }

  lemma JudgedTagsListed(snap: Snapshot, deterministic: seq<CandidateFinding>)
    returns (tags: seq<Tagged>, slots: seq<Slot>)
    ensures Lists(slot => TagAt(snap, deterministic, slot), 4, 6, tags, slots)
    ensures tags == if snap.judgement.Some? then
        TagOptions(snap.judgement.value.baselines) + TagOptions(snap.judgement.value.falsifiability)
      else []
  {
    var at := (slot: Slot) => TagAt(snap, deterministic, slot);
    if snap.judgement.Some? {
      var j := snap.judgement.value;
      var s := OptionTagsListed(snap, deterministic, 4, j.baselines);
      var t := OptionTagsListed(snap, deterministic, 5, j.falsifiability);
      tags := TagOptions(j.baselines) + TagOptions(j.falsifiability);
      slots := s + t;
      hide Lists, TagOptions, TagAt;
      ListsJoin(at, 4, 5, 6, TagOptions(j.baselines), s, TagOptions(j.falsifiability), t);
    } else {
      NoTagsListed(snap, deterministic, 4);
      NoTagsListed(snap, deterministic, 5);
      tags, slots := [], [];
      hide Lists, TagAt;
      ListsJoin(at, 4, 5, 6, [], [], [], []);
      assert [] + tags == tags && [] + slots == slots;
    }
  }

  // ---- Findings ----------------------------------------------------------

  predicate IsRow(oracle: OracleTable, id: string) {
    exists i | 0 <= i < |oracle.rows| :: oracle.rows[i].id == id
  }

  ghost predicate KnownPart(oracle: OracleTable, known: seq<string>, refs: seq<string>) {
    IsSelection(known, refs, (r: string) => IsRow(oracle, r))
  }

  /** The rows a finding cites: the known ones among the candidate's, or else its own row. */
  ghost predicate CitesRows(oracle: OracleTable, refs: seq<string>, c: CandidateFinding, slot: Slot) {
    exists known :: KnownPart(oracle, known, c.doctrineRefs)
      && refs == if known == [] && slot.group == 1 && slot.row != "" then [slot.row] else known
  }

  /** A finding is its candidate, field by field, apart from what capping makes of it. */
  ghost predicate IsFindingOf(deps: Deps, f: Finding, c: CandidateFinding, slot: Slot, number: nat) {
    && f.findingId == "F" + Decimal(number)
    && f.origin == (if slot.group == 0 then Deterministic else Llm)
    && f.originalSeverity == c.severity
    && f.summary == deps.launder(c.summary)
    && f.gateRefs == c.gateRefs
    && f.dispositionRequired == (if c.dispositionRequired == "" then "" else deps.launder(c.dispositionRequired))
    && IsSelection(f.supports, c.supports, (s: SupportRef) => s.kind != DoctrineRow || IsRow(deps.oracle, s.ref))
    && CitesRows(deps.oracle, f.doctrineRefs, c, slot)
    && f.key == FindingKey(if f.doctrineRefs == [] then deps.oracle.placeholderRowId else f.doctrineRefs[0],
                           if NormalizeSlug(c.anchor) == "" then "finding" else NormalizeSlug(c.anchor))
  }

  lemma {:induction false} KnownRefsSelect(oracle: OracleTable, refs: seq<string>)
    ensures KnownPart(oracle, KnownRefs(oracle, refs), refs)
  {
    var p := (r: string) => IsRow(oracle, r);
    if refs == [] {
      SelectionOfNothing([], p);
    } else {
      KnownRefsSelect(oracle, refs[1..]);
      assert IsRow(oracle, refs[0]) <==> refs[0] in oracle.RowIds();
      SelectionPrepend(KnownRefs(oracle, refs[1..]), refs[1..], refs[0], p);
      assert refs == [refs[0]] + refs[1..];
    }
  }

  lemma {:induction false} KnownSupportsSelect(oracle: OracleTable, supports: seq<SupportRef>)
    ensures IsSelection(KnownSupports(oracle, supports), supports,
                        (s: SupportRef) => s.kind != DoctrineRow || IsRow(oracle, s.ref))
  {
    var p := (s: SupportRef) => s.kind != DoctrineRow || IsRow(oracle, s.ref);
    if supports == [] {
      SelectionOfNothing([], p);
    } else {
      KnownSupportsSelect(oracle, supports[1..]);
      assert IsRow(oracle, supports[0].ref) <==> supports[0].ref in oracle.RowIds();
      SelectionPrepend(KnownSupports(oracle, supports[1..]), supports[1..], supports[0], p);
      assert supports == [supports[0]] + supports[1..];
    }
  }

  lemma CitesRowsOf(deps: Deps, c: CandidateFinding, slot: Slot)
    ensures CitesRows(deps.oracle, RefsOf(deps.oracle, TagFor(c, slot)), c, slot)
  {
    hide KnownPart;
    KnownRefsSelect(deps.oracle, c.doctrineRefs);
  }

  lemma FindingIs(deps: Deps, c: CandidateFinding, slot: Slot, number: nat, mode: ReviewMode)
    ensures IsFindingOf(deps, Capped(deps.oracle, ToFinding(deps, TagFor(c, slot), number), mode), c, slot, number)
  {
    var f := ToFinding(deps, TagFor(c, slot), number);
    KnownSupportsSelect(deps.oracle, c.supports);
    CitesRowsOf(deps, c, slot);
    CappedKeepsIdentity(deps.oracle, f, mode);
    hide Capped, IsSelection, CitesRows, RefsOf, KnownSupports, NormalizeSlug, Decimal;
  }

  /** That leaves nothing open but what capping decides. */
  lemma FindingIsDetermined(deps: Deps, f: Finding, g: Finding, c: CandidateFinding, slot: Slot, number: nat)
    requires IsFindingOf(deps, f, c, slot, number) && IsFindingOf(deps, g, c, slot, number)
    ensures f == g.(severity := f.severity, capReasons := f.capReasons)
  {
    hide IsSelection, KnownPart, Decimal, NormalizeSlug;
    SelectionIsUnique(f.supports, g.supports, c.supports,
                      (s: SupportRef) => s.kind != DoctrineRow || IsRow(deps.oracle, s.ref));
    var known :| KnownPart(deps.oracle, known, c.doctrineRefs)
      && f.doctrineRefs == if known == [] && slot.group == 1 && slot.row != "" then [slot.row] else known;
    var other :| KnownPart(deps.oracle, other, c.doctrineRefs)
      && g.doctrineRefs == if other == [] && slot.group == 1 && slot.row != "" then [slot.row] else other;
    SamePart(deps.oracle, known, other, c.doctrineRefs);
  }

  lemma SamePart(oracle: OracleTable, known: seq<string>, other: seq<string>, refs: seq<string>)
    requires KnownPart(oracle, known, refs) && KnownPart(oracle, other, refs)
    ensures known == other
  {
    hide IsSelection;
    SelectionIsUnique(known, other, refs, (r: string) => IsRow(oracle, r));
  }

  /** The findings are those of the candidates at these places, one for each, in order. */
  ghost predicate AreFindingsOf(deps: Deps, findings: seq<Finding>, snap: Snapshot,
                                deterministic: seq<CandidateFinding>, slots: seq<Slot>) {
    && InOrder(slots) && |slots| == |findings|
    && (forall slot :: slot in slots <==> CandidateAt(snap, deterministic, slot).Some?)
    && forall k | 0 <= k < |slots| ::
         && CandidateAt(snap, deterministic, slots[k]).Some?
         && IsFindingOf(deps, findings[k], CandidateAt(snap, deterministic, slots[k]).value, slots[k], k + 1)
  }

  lemma AssembledFromPlaces(deps: Deps, snap: Snapshot, deterministic: seq<CandidateFinding>, mode: ReviewMode)
    returns (slots: seq<Slot>)
    ensures AreFindingsOf(deps, Assembled(deps, snap, deterministic, mode), snap, deterministic, slots)
  {
    slots := TagsListed(snap, deterministic);
    var tags, findings := Tags(snap, deterministic), Assembled(deps, snap, deterministic, mode);
    hide Tags, ToFinding, Capped, IsFindingOf;
    assert |findings| == |tags|;
    forall k | 0 <= k < |slots|
      ensures CandidateAt(snap, deterministic, slots[k]).Some?
      ensures IsFindingOf(deps, findings[k], CandidateAt(snap, deterministic, slots[k]).value, slots[k], k + 1)
    {
      assert TagAt(snap, deterministic, slots[k]) == Some(tags[k]);
      assert findings[k] == Capped(deps.oracle, ToFinding(deps, tags[k], k + 1), mode);
      FindingIs(deps, CandidateAt(snap, deterministic, slots[k]).value, slots[k], k + 1, mode);
    }
    NoOtherGroups(snap, deterministic);
  }

  lemma NoOtherGroups(snap: Snapshot, deterministic: seq<CandidateFinding>)
    ensures forall slot | CandidateAt(snap, deterministic, slot).Some? :: slot.group < 6
  {
  }

  // ---- The log -----------------------------------------------------------

  /** The entry at a place: those of the rows, then of source quality, then of the judgement. */
  function EntryAt(snap: Snapshot, slot: Slot): Option<VerificationEntry> {
    if slot.group == 1 then
      if slot.row in snap.rows && slot.index < |snap.rows[slot.row].verificationEntries|
      then Some(snap.rows[slot.row].verificationEntries[slot.index]) else None
    else if slot.group == 2 && snap.sourceQuality.Some? then
      Within(snap.sourceQuality.value.verificationEntries, slot)
    else if slot.group == 3 && snap.judgement.Some? then Within(snap.judgement.value.verificationEntries, slot)
    else None
  }

  /** The log is the entries at these places, one line for each, in order. */
  ghost predicate IsLogOf(log: seq<VerificationEntry>, snap: Snapshot, slots: seq<Slot>) {
    && InOrder(slots) && |slots| == |log|
    && (forall slot :: slot in slots <==> EntryAt(snap, slot).Some?)
    && forall k | 0 <= k < |slots| :: EntryAt(snap, slots[k]) == Some(log[k])
  }

  lemma {:induction false} RowEntriesAreFlat(rows: map<string, RowDisposition>,
                                             lists: map<string, seq<VerificationEntry>>, ids: seq<string>)
    requires lists.Keys == rows.Keys && forall id | id in rows :: lists[id] == rows[id].verificationEntries
    requires forall i | 0 <= i < |ids| :: ids[i] in rows
    ensures RowEntries(rows, ids) == Flat(lists, ids)
  {
    if ids != [] {
      RowEntriesAreFlat(rows, lists, ids[..|ids| - 1]);
    }
  }

  lemma EntryAtRow(snap: Snapshot, slot: Slot)
    requires slot.group == 1
    ensures EntryAt(snap, slot)
         == if slot.row in snap.rows && slot.index < |snap.rows[slot.row].verificationEntries|
            then Some(snap.rows[slot.row].verificationEntries[slot.index]) else None
  {
  }

  lemma RowEntriesListed(snap: Snapshot) returns (slots: seq<Slot>)
    ensures (forall i | 0 <= i < |Sorted(snap.rows.Keys)| :: Sorted(snap.rows.Keys)[i] in snap.rows)
    ensures Lists(slot => EntryAt(snap, slot), 1, 2, RowEntries(snap.rows, Sorted(snap.rows.Keys)), slots)
  {
    hide *;
    var at := (slot: Slot) => EntryAt(snap, slot);
    var lists := map id | id in snap.rows :: snap.rows[id].verificationEntries;
    var ids := Sorted(snap.rows.Keys);
    SortedKeys(snap.rows);
    forall slot: Slot | slot.group == 1
      ensures at(slot) == if slot.row in lists && slot.index < |lists[slot.row]|
                          then Some(lists[slot.row][slot.index]) else None
    {
      EntryAtRow(snap, slot);
    }
    ListsRows(at, 1, lists, ids);
    RowEntriesAreFlat(snap.rows, lists, ids);
    slots := RowSlots(1, lists, ids);
  }

  lemma PlainEntriesListed(snap: Snapshot, g: nat, list: seq<VerificationEntry>) returns (slots: seq<Slot>)
    requires forall slot: Slot | slot.group == g :: EntryAt(snap, slot) == Within(list, slot)
    ensures Lists(slot => EntryAt(snap, slot), g, g + 1, list, slots)
  {
    hide EntryAt;
    ListsPlain((slot: Slot) => EntryAt(snap, slot), g, list);
    slots := PlainSlots(g, "", |list|);
  }

  lemma QualityEntriesListed(snap: Snapshot) returns (log: seq<VerificationEntry>, slots: seq<Slot>)
    ensures log == if snap.sourceQuality.Some? then snap.sourceQuality.value.verificationEntries else []
    ensures Lists(slot => EntryAt(snap, slot), 2, 3, log, slots)
  {
    log := if snap.sourceQuality.Some? then snap.sourceQuality.value.verificationEntries else [];
    slots := PlainEntriesListed(snap, 2, log);
  }

  lemma JudgedEntriesListed(snap: Snapshot) returns (log: seq<VerificationEntry>, slots: seq<Slot>)
    ensures log == if snap.judgement.Some? then snap.judgement.value.verificationEntries else []
    ensures Lists(slot => EntryAt(snap, slot), 3, 4, log, slots)
  {
    log := if snap.judgement.Some? then snap.judgement.value.verificationEntries else [];
    slots := PlainEntriesListed(snap, 3, log);
  }

  lemma LogListed(snap: Snapshot) returns (slots: seq<Slot>)
    ensures Lists(slot => EntryAt(snap, slot), 1, 4, AllEntries(snap), slots)
  {
    hide EntryAt, RowEntries, Sorted, Lists;
    var r := RowEntriesListed(snap);
    var quality, q := QualityEntriesListed(snap);
    var judged, j := JudgedEntriesListed(snap);
    slots := r + q + j;
    ListsAppend((slot: Slot) => EntryAt(snap, slot), RowEntries(snap.rows, Sorted(snap.rows.Keys)), r, quality, q,
                judged, j);
  }

  lemma LogIsOfPlaces(snap: Snapshot) returns (slots: seq<Slot>)
    ensures IsLogOf(AllEntries(snap), snap, slots)
  {
    assert forall slot | EntryAt(snap, slot).Some? :: 1 <= slot.group < 4;
    hide AllEntries, EntryAt, InOrder;
    slots := LogListed(snap);
  }

  lemma ListsAppend<T>(at: Slot -> Option<T>, u: seq<T>, r: seq<Slot>, v: seq<T>, s: seq<Slot>, w: seq<T>,
                       t: seq<Slot>)
    requires Lists(at, 1, 2, u, r) && Lists(at, 2, 3, v, s) && Lists(at, 3, 4, w, t)
    ensures Lists(at, 1, 4, u + v + w, r + s + t)
  {
    hide *;
    ListsJoin(at, 1, 2, 3, u, r, v, s);
    ListsJoin(at, 1, 3, 4, u + v, r + s, w, t);
  }
}
