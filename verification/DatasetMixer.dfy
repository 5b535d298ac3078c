/**
 * The quota mixer of the training pipeline (omni-training/lib/dataset_mixer.py):
 * greedy selection from records ranked by priority, in two passes.
 *
 * The ranking is an input: the list is already in descending priority.
 */
module DatasetMixer {
  import opened Common

  datatype Record = Record(id: string, source: string, language: string, family: string)

  datatype Attribute = Source | Language | Family

  function Get(r: Record, a: Attribute): string {
    match a
    case Source => r.source
    case Language => r.language
    case Family => r.family
  }

  function Count(s: seq<Record>, a: Attribute, value: string): nat {
    if s == [] then 0
    else Count(s[..|s|-1], a, value) + if Get(s[|s|-1], a) == value then 1 else 0
  }

  datatype Minimum = Minimum(source: string, count: int)

  datatype Quotas = Quotas(
    maxRecords: int,
    language: map<string, int>,
    family: map<string, int>,
    source: map<string, int>,
    minimums: seq<Minimum>)      // in the order of the dictionary
  {
    function Of(a: Attribute): map<string, int> {
      match a
      case Source => source
      case Language => language
      case Family => family
    }
  }

  // The keys of a dictionary are distinct.
  predicate DistinctMinimums(q: Quotas) {
    forall i, j :: 0 <= i < j < |q.minimums| ==> q.minimums[i].source != q.minimums[j].source
  }

  predicate DistinctIds(s: seq<Record>) {
    forall i, j :: 0 <= i < j < |s| ==> s[i].id != s[j].id
  }

  predicate HasId(s: seq<Record>, id: string) {
    exists i :: 0 <= i < |s| && s[i].id == id
  }

  // The minimum configured for a source; 0 when there is none or it is negative.
  function MinimumFor(minimums: seq<Minimum>, source: string): nat {
    if minimums == [] then 0
    else
      var last := minimums[|minimums|-1];
      if last.source == source then Max(0, last.count) else MinimumFor(minimums[..|minimums|-1], source)
  }

  function TotalMinimums(minimums: seq<Minimum>): nat {
    if minimums == [] then 0
    else TotalMinimums(minimums[..|minimums|-1]) + Max(0, minimums[|minimums|-1].count)
  }

  // A quota of this record is used up by the selection.
  predicate QuotaFull(q: Quotas, selected: seq<Record>, a: Attribute, value: string) {
    value in q.Of(a) && Count(selected, a, value) >= q.Of(a)[value]
  }

  predicate Blocked(q: Quotas, selected: seq<Record>, r: Record) {
    || QuotaFull(q, selected, Source, r.source)
    || QuotaFull(q, selected, Language, r.language)
    || QuotaFull(q, selected, Family, r.family)
  }

  function Limit(q: Quotas): nat {
    Max(1, q.maxRecords)
  }

  // ---------- the two passes, as a specification ----------

  function OfSource(s: seq<Record>, source: string): seq<Record> {
    if s == [] then []
    else
      var before := OfSource(s[..|s|-1], source);
      if s[|s|-1].source == source then before + [s[|s|-1]] else before
  }

  // The records considered for one minimum: the best ones of its source.
  function Candidates(ranked: seq<Record>, m: Minimum): seq<Record> {
    var own := OfSource(ranked, m.source);
    own[..Min(|own|, Max(0, m.count))]
  }

  function AddNew(selected: seq<Record>, rs: seq<Record>): seq<Record> {
    if rs == [] then selected
    else
      var before := AddNew(selected, rs[..|rs|-1]);
      if HasId(before, rs[|rs|-1].id) then before else before + [rs[|rs|-1]]
  }

  // First pass: the minimums, without regard to quotas or to the record limit.
  function MinimumPass(ranked: seq<Record>, minimums: seq<Minimum>): seq<Record> {
    if minimums == [] then []
    else AddNew(MinimumPass(ranked, minimums[..|minimums|-1]), Candidates(ranked, minimums[|minimums|-1]))
  }

  predicate Takes(q: Quotas, selected: seq<Record>, r: Record) {
    |selected| < Limit(q) && !HasId(selected, r.id) && !Blocked(q, selected, r)
  }

  // Second pass: fill up in rank order as the quotas allow.
  function QuotaPass(q: Quotas, selected: seq<Record>, rs: seq<Record>): seq<Record> {
    if rs == [] then selected
    else
      var before := QuotaPass(q, selected, rs[..|rs|-1]);
      if Takes(q, before, rs[|rs|-1]) then before + [rs[|rs|-1]] else before
  }

  function Mix(q: Quotas, ranked: seq<Record>): seq<Record> {
    QuotaPass(q, MinimumPass(ranked, q.minimums), ranked)
  }

  // ---------- the two passes, as the code runs them ----------

  // `Counter`: an absent key counts 0.
  function Tally(counts: map<string, nat>, key: string): nat {
    if key in counts then counts[key] else 0
  }

  // The local collections of one run: the selection, the ids seen, three counters.
  datatype Selection = Selection(
    selected: seq<Record>,
    ids: set<string>,
    sources: map<string, nat>,
    languages: map<string, nat>,
    families: map<string, nat>)
  {
    ghost predicate Valid() {
      && (forall id :: id in ids <==> HasId(selected, id))
      && (forall v: string :: Tally(sources, v) == Count(selected, Source, v))
      && (forall v: string :: Tally(languages, v) == Count(selected, Language, v))
      && (forall v: string :: Tally(families, v) == Count(selected, Family, v))
    }
  }

  const NOTHING: Selection := Selection([], {}, map[], map[], map[])

  lemma TallyNext(counts: map<string, nat>, selected: seq<Record>, r: Record, a: Attribute)
    requires forall v: string :: Tally(counts, v) == Count(selected, a, v)
    ensures var after := counts[Get(r, a) := Tally(counts, Get(r, a)) + 1];
      forall v: string :: Tally(after, v) == Count(selected + [r], a, v)
  {
    CountAppend(selected, r);
  }

  method Add(s: Selection, r: Record) returns (s': Selection)
    requires s.Valid()
    ensures s'.Valid() && s'.selected == s.selected + [r]
  {
    TallyNext(s.sources, s.selected, r, Source);
    TallyNext(s.languages, s.selected, r, Language);
    TallyNext(s.families, s.selected, r, Family);
    HasIdAppend(s.selected, r);
    s' := Selection(
      s.selected + [r],
      s.ids + {r.id},
      s.sources[r.source := Tally(s.sources, r.source) + 1],
      s.languages[r.language := Tally(s.languages, r.language) + 1],
      s.families[r.family := Tally(s.families, r.family) + 1]);
  }

  method AddCandidates(s: Selection, candidates: seq<Record>) returns (s': Selection)
    requires s.Valid()
    ensures s'.Valid() && s'.selected == AddNew(s.selected, candidates)
  {
    s' := s;
    for j := 0 to |candidates|
      invariant s'.Valid() && s'.selected == AddNew(s.selected, candidates[..j])
    {
      assert candidates[..j+1][..j] == candidates[..j];
      if candidates[j].id !in s'.ids {
        s' := Add(s', candidates[j]);
      }
    }
    assert candidates[..|candidates|] == candidates;
  }

  method FillMinimums(ranked: seq<Record>, minimums: seq<Minimum>) returns (s: Selection)
    ensures s.Valid() && s.selected == MinimumPass(ranked, minimums)
  {
    s := NOTHING;
    for i := 0 to |minimums|
      invariant s.Valid() && s.selected == MinimumPass(ranked, minimums[..i])
    {
      var m := minimums[i];
      assert minimums[..i+1][..i] == minimums[..i];
      if m.count <= 0 {
        continue;
      }
      var own := OfSource(ranked, m.source);
      s := AddCandidates(s, own[..Min(|own|, m.count)]);
    }
    assert minimums[..|minimums|] == minimums;
  }

  // The tests of the second pass, on the id set and the counters.
  predicate Skips(q: Quotas, s: Selection, r: Record)
    ensures s.Valid() ==> (Skips(q, s, r) <==> HasId(s.selected, r.id) || Blocked(q, s.selected, r))
  {
    || r.id in s.ids
    || (r.source in q.source && Tally(s.sources, r.source) >= q.source[r.source])
    || (r.language in q.language && Tally(s.languages, r.language) >= q.language[r.language])
    || (r.family in q.family && Tally(s.families, r.family) >= q.family[r.family])
  }

  method FillQuotas(q: Quotas, base: Selection, ranked: seq<Record>) returns (s: Selection)
    requires base.Valid()
    ensures s.Valid() && s.selected == QuotaPass(q, base.selected, ranked)
  {
    s := base;
    var i := 0;
    while i < |ranked| && |s.selected| < Limit(q)
      invariant i <= |ranked|
      invariant s.Valid() && s.selected == QuotaPass(q, base.selected, ranked[..i])
    {
      var r := ranked[i];
      assert ranked[..i+1][..i] == ranked[..i];
      if !Skips(q, s, r) {
        s := Add(s, r);
      }
      i := i + 1;
    }
    FullPassStops(q, base.selected, ranked, i);
  }

  method MixDatasetRecords(ranked: seq<Record>, q: Quotas) returns (selected: seq<Record>)
    ensures selected == Mix(q, ranked)
  {
    var s := FillMinimums(ranked, q.minimums);
    s := FillQuotas(q, s, ranked);
    return s.selected;
  }

  // Once the limit is reached the second pass changes nothing.
  lemma {:induction false} FullPassStops(q: Quotas, selected: seq<Record>, rs: seq<Record>, n: nat)
    requires n <= |rs|
    requires n == |rs| || |QuotaPass(q, selected, rs[..n])| >= Limit(q)
    ensures QuotaPass(q, selected, rs) == QuotaPass(q, selected, rs[..n])
  {
    if n == |rs| {
      assert rs[..n] == rs;
    } else {
      assert rs[..|rs|-1][..n] == rs[..n];
      FullPassStops(q, selected, rs[..|rs|-1], n);
    }
  }

  lemma CountAppend(s: seq<Record>, r: Record)
    ensures forall a, v :: Count(s + [r], a, v) == Count(s, a, v) + if Get(r, a) == v then 1 else 0
  {
    assert (s + [r])[..|s|] == s;
  }

  lemma HasIdAppend(s: seq<Record>, r: Record)
    ensures forall id :: HasId(s + [r], id) <==> HasId(s, id) || id == r.id
  {
    forall id ensures HasId(s + [r], id) <==> HasId(s, id) || id == r.id {
      if HasId(s, id) {
        var i :| 0 <= i < |s| && s[i].id == id;
        assert (s + [r])[i].id == id;
      }
      assert (s + [r])[|s|] == r;
    }
  }

  // ---------- growing selections ----------

  lemma {:induction false} CountPrefix(s: seq<Record>, t: seq<Record>, a: Attribute, v: string)
    requires s <= t
    ensures Count(s, a, v) <= Count(t, a, v)
  {
    if |s| < |t| {
      CountPrefix(s, t[..|t|-1], a, v);
    } else {
      assert s == t;
    }
  }

  lemma HasIdPrefix(s: seq<Record>, t: seq<Record>, id: string)
    requires s <= t && HasId(s, id)
    ensures HasId(t, id)
  {
    var i :| 0 <= i < |s| && s[i].id == id;
    assert t[i].id == id;
  }

  lemma {:induction false} QuotaPassGrows(q: Quotas, selected: seq<Record>, rs: seq<Record>, n: nat)
    requires n <= |rs|
    ensures QuotaPass(q, selected, rs[..n]) <= QuotaPass(q, selected, rs)
    ensures selected <= QuotaPass(q, selected, rs)
  {
    if n < |rs| {
      assert rs[..|rs|-1][..n] == rs[..n];
      QuotaPassGrows(q, selected, rs[..|rs|-1], n);
    } else {
      assert rs[..n] == rs;
      if n > 0 {
        assert rs[..n-1][..n-1] == rs[..n-1];
        QuotaPassGrows(q, selected, rs[..n-1], n - 1);
      }
    }
  }

  lemma {:induction false} AddNewGrows(selected: seq<Record>, rs: seq<Record>)
    requires DistinctIds(selected)
    ensures selected <= AddNew(selected, rs) && DistinctIds(AddNew(selected, rs))
    ensures |AddNew(selected, rs)| <= |selected| + |rs|
    ensures forall i :: 0 <= i < |rs| ==> HasId(AddNew(selected, rs), rs[i].id)
  {
    if rs != [] {
      var init, r := rs[..|rs|-1], rs[|rs|-1];
      var before, after := AddNew(selected, init), AddNew(selected, rs);
      AddNewGrows(selected, init);
      HasIdAppend(before, r);
      forall i | 0 <= i < |rs| ensures HasId(after, rs[i].id) {
        if i < |init| {
          assert HasId(before, init[i].id);
        }
      }
    }
  }

  // Adding records of one source, whatever else is added.
  lemma {:induction false} AddNewCounts(selected: seq<Record>, rs: seq<Record>, source: string, v: string)
    requires forall i :: 0 <= i < |rs| ==> rs[i].source == source
    ensures Count(AddNew(selected, rs), Source, v) <= Count(selected, Source, v) + if v == source then |rs| else 0
  {
    if rs != [] {
      var before := AddNew(selected, rs[..|rs|-1]);
      AddNewCounts(selected, rs[..|rs|-1], source, v);
      CountAppend(before, rs[|rs|-1]);
    }
  }

  lemma {:induction false} OfSourceShape(s: seq<Record>, source: string)
    ensures forall i :: 0 <= i < |OfSource(s, source)| ==>
      OfSource(s, source)[i].source == source && OfSource(s, source)[i] in s
    ensures |OfSource(s, source)| == Count(s, Source, source)
  {
    if s != [] {
      OfSourceShape(s[..|s|-1], source);
    }
  }

  // ---------- distinct ids, size, membership ----------

  lemma {:induction false} MinimumPassShape(ranked: seq<Record>, minimums: seq<Minimum>)
    ensures DistinctIds(MinimumPass(ranked, minimums))
    ensures |MinimumPass(ranked, minimums)| <= TotalMinimums(minimums)
  {
    if minimums != [] {
      MinimumPassShape(ranked, minimums[..|minimums|-1]);
      AddNewGrows(MinimumPass(ranked, minimums[..|minimums|-1]), Candidates(ranked, minimums[|minimums|-1]));
    }
  }

  lemma {:induction false} QuotaPassShape(q: Quotas, selected: seq<Record>, rs: seq<Record>)
    requires DistinctIds(selected)
    ensures DistinctIds(QuotaPass(q, selected, rs))
    ensures |QuotaPass(q, selected, rs)| <= Max(Limit(q), |selected|)
  {
    if rs != [] {
      QuotaPassShape(q, selected, rs[..|rs|-1]);
    }
  }

  // Output ids are distinct, and only the minimums can exceed the record limit.
  lemma DistinctAndBounded(q: Quotas, ranked: seq<Record>)
    ensures DistinctIds(Mix(q, ranked))
    ensures |Mix(q, ranked)| <= Max(Limit(q), TotalMinimums(q.minimums))
  {
    MinimumPassShape(ranked, q.minimums);
    QuotaPassShape(q, MinimumPass(ranked, q.minimums), ranked);
  }

  lemma {:induction false} AddNewMembers(selected: seq<Record>, rs: seq<Record>)
    ensures forall r :: r in AddNew(selected, rs) ==> r in selected || r in rs
  {
    if rs != [] {
      AddNewMembers(selected, rs[..|rs|-1]);
    }
  }

  lemma {:induction false} MinimumPassMembers(ranked: seq<Record>, minimums: seq<Minimum>)
    ensures forall r :: r in MinimumPass(ranked, minimums) ==> r in ranked
  {
    if minimums != [] {
      var m := minimums[|minimums|-1];
      MinimumPassMembers(ranked, minimums[..|minimums|-1]);
      AddNewMembers(MinimumPass(ranked, minimums[..|minimums|-1]), Candidates(ranked, m));
      OfSourceShape(ranked, m.source);
    }
  }

  lemma {:induction false} QuotaPassMembers(q: Quotas, selected: seq<Record>, rs: seq<Record>)
    ensures forall r :: r in QuotaPass(q, selected, rs) ==> r in selected || r in rs
  {
    if rs != [] {
      QuotaPassMembers(q, selected, rs[..|rs|-1]);
    }
  }

  // Nothing is invented.
  lemma OnlyInputRecords(q: Quotas, ranked: seq<Record>)
    ensures forall r :: r in Mix(q, ranked) ==> r in ranked
  {
    MinimumPassMembers(ranked, q.minimums);
    QuotaPassMembers(q, MinimumPass(ranked, q.minimums), ranked);
  }

  // ---------- quotas ----------

  lemma {:induction false} MinimumForAbsent(minimums: seq<Minimum>, source: string)
    requires forall i :: 0 <= i < |minimums| ==> minimums[i].source != source
    ensures MinimumFor(minimums, source) == 0
  {
    if minimums != [] {
      MinimumForAbsent(minimums[..|minimums|-1], source);
    }
  }

  lemma {:induction false} MinimumPassCounts(ranked: seq<Record>, minimums: seq<Minimum>, v: string)
    requires forall i, j :: 0 <= i < j < |minimums| ==> minimums[i].source != minimums[j].source
    ensures Count(MinimumPass(ranked, minimums), Source, v) <= MinimumFor(minimums, v)
  {
    if minimums != [] {
      var init, m := minimums[..|minimums|-1], minimums[|minimums|-1];
      MinimumPassCounts(ranked, init, v);
      OfSourceShape(ranked, m.source);
      AddNewCounts(MinimumPass(ranked, init), Candidates(ranked, m), m.source, v);
      if v == m.source {
        MinimumForAbsent(init, v);
      }
    }
  }

  lemma {:induction false} QuotaPassCounts(q: Quotas, selected: seq<Record>, rs: seq<Record>, a: Attribute, v: string)
    requires v in q.Of(a)
    ensures Count(QuotaPass(q, selected, rs), a, v) <= Max(q.Of(a)[v], Count(selected, a, v))
  {
    if rs != [] {
      QuotaPassCounts(q, selected, rs[..|rs|-1], a, v);
      CountAppend(QuotaPass(q, selected, rs[..|rs|-1]), rs[|rs|-1]);
    }
  }

  // A source exceeds its quota only as far as its minimum demands, and any other
  // quota only as far as the minimums already exceeded it.
  lemma QuotasRespected(q: Quotas, ranked: seq<Record>, a: Attribute, v: string)
    requires DistinctMinimums(q) && v in q.Of(a)
    ensures Count(Mix(q, ranked), a, v)
         <= Max(q.Of(a)[v], Count(MinimumPass(ranked, q.minimums), a, v))
    ensures a == Source ==> Count(Mix(q, ranked), a, v) <= Max(q.Of(a)[v], MinimumFor(q.minimums, v))
  {
    QuotaPassCounts(q, MinimumPass(ranked, q.minimums), ranked, a, v);
    MinimumPassCounts(ranked, q.minimums, v);
  }

  // ---------- maximality ----------

  lemma {:induction false} PassLeavesNothing(q: Quotas, selected: seq<Record>, rs: seq<Record>, i: nat)
    requires i < |rs|
    ensures !Takes(q, QuotaPass(q, selected, rs), rs[i])
  {
    var init, r := rs[..|rs|-1], rs[|rs|-1];
    var before, after := QuotaPass(q, selected, init), QuotaPass(q, selected, rs);
    HasIdAppend(before, r);
    if i < |init| {
      PassLeavesNothing(q, selected, init, i);
      if HasId(before, rs[i].id) {
        HasIdPrefix(before, after, rs[i].id);
      }
      CountPrefix(before, after, Source, rs[i].source);
      CountPrefix(before, after, Language, rs[i].language);
      CountPrefix(before, after, Family, rs[i].family);
    }
  }

  // No record left out could still be added.
  lemma Maximal(q: Quotas, ranked: seq<Record>, i: nat)
    requires i < |ranked|
    ensures HasId(Mix(q, ranked), ranked[i].id) || |Mix(q, ranked)| >= Limit(q) || Blocked(q, Mix(q, ranked), ranked[i])
  {
    PassLeavesNothing(q, MinimumPass(ranked, q.minimums), ranked, i);
  }

  // As long as records are left out that no quota blocks, the limit is reached.
  lemma FillsUp(q: Quotas, ranked: seq<Record>, i: nat)
    requires i < |ranked| && |Mix(q, ranked)| < (if q.maxRecords < 1 then 1 else q.maxRecords)
    ensures var (mix, r) := (Mix(q, ranked), ranked[i]);
      || (exists j :: 0 <= j < |mix| && mix[j].id == r.id)
      || (r.source in q.source && Count(mix, Source, r.source) >= q.source[r.source])
      || (r.language in q.language && Count(mix, Language, r.language) >= q.language[r.language])
      || (r.family in q.family && Count(mix, Family, r.family) >= q.family[r.family])
  {
    Maximal(q, ranked, i);
  }

  lemma {:induction false} PlainPass(q: Quotas, ranked: seq<Record>, n: nat)
    requires n <= |ranked| && DistinctIds(ranked)
    requires q.source == map[] && q.language == map[] && q.family == map[]
    ensures QuotaPass(q, [], ranked[..n]) == ranked[..Min(n, Limit(q))]
  {
    if n > 0 {
      PlainPass(q, ranked, n - 1);
      assert ranked[..n][..n-1] == ranked[..n-1];
      var before := ranked[..Min(n - 1, Limit(q))];
      assert !HasId(before, ranked[n-1].id);
      assert !Blocked(q, before, ranked[n-1]);
    }
  }

  // Without quotas and minimums the best records are taken, up to the limit.
  lemma BestFirst(q: Quotas, ranked: seq<Record>)
    requires DistinctIds(ranked)
    requires q.source == map[] && q.language == map[] && q.family == map[] && q.minimums == []
    ensures Mix(q, ranked) == ranked[..Min(|ranked|, if q.maxRecords < 1 then 1 else q.maxRecords)]
  {
    PlainPass(q, ranked, |ranked|);
    assert ranked[..|ranked|] == ranked;
  }

  // ---------- rank order ----------

  lemma {:induction false} OfSourceAt(s: seq<Record>, i: nat)
    requires i < |s|
    ensures var own, k := OfSource(s, s[i].source), |OfSource(s[..i], s[i].source)|;
      k < |own| && own[k] == s[i]
    ensures forall j :: i < j <= |s| ==>
      |OfSource(s[..i], s[i].source)| < |OfSource(s[..j], s[i].source)| <= |OfSource(s, s[i].source)|
  {
    var n := |s| - 1;
    if i < n {
      OfSourceAt(s[..n], i);
      assert s[..n][..i] == s[..i];
      forall j | i < j <= |s|
        ensures |OfSource(s[..i], s[i].source)| < |OfSource(s[..j], s[i].source)| <= |OfSource(s, s[i].source)|
      {
        if j <= n {
          assert s[..n][..j] == s[..j];
        } else {
          assert s[..j] == s;
          assert s[..n][..n] == s[..n];
        }
      }
    } else {
      assert s[..|s|] == s;
    }
  }

  lemma {:induction false} OfSourceDistinct(s: seq<Record>, source: string)
    requires DistinctIds(s)
    ensures DistinctIds(OfSource(s, source))
  {
    if s != [] {
      var init, r := s[..|s|-1], s[|s|-1];
      OfSourceDistinct(init, source);
      OfSourceShape(init, source);
      forall i | 0 <= i < |OfSource(init, source)| ensures OfSource(init, source)[i].id != r.id {
        assert OfSource(init, source)[i] in init;
      }
    }
  }

  // A better record of the same source is a candidate whenever a worse one is.
  lemma CandidatesClosed(ranked: seq<Record>, m: Minimum, i: nat, j: nat, k: nat)
    requires DistinctIds(ranked)
    requires i < j < |ranked| && ranked[i].source == ranked[j].source == m.source
    requires k < |Candidates(ranked, m)| && Candidates(ranked, m)[k] == ranked[j]
    ensures exists h :: 0 <= h < |Candidates(ranked, m)| && Candidates(ranked, m)[h] == ranked[i]
  {
    var own := OfSource(ranked, m.source);
    OfSourceAt(ranked, i);
    OfSourceAt(ranked, j);
    OfSourceDistinct(ranked, m.source);
    var pi, pj := |OfSource(ranked[..i], m.source)|, |OfSource(ranked[..j], m.source)|;
    assert own[k] == ranked[j] == own[pj];
    assert k == pj && pi < pj;
    assert Candidates(ranked, m)[pi] == ranked[i];
  }

  // Where a record of the first pass comes from.
  lemma {:induction false} MinimumPassOrigin(ranked: seq<Record>, minimums: seq<Minimum>, r: Record)
    requires r in MinimumPass(ranked, minimums)
    ensures exists n :: 0 <= n < |minimums| && r in Candidates(ranked, minimums[n])
  {
    var init, m := minimums[..|minimums|-1], minimums[|minimums|-1];
    AddNewMembers(MinimumPass(ranked, init), Candidates(ranked, m));
    if r in MinimumPass(ranked, init) {
      MinimumPassOrigin(ranked, init, r);
      var n :| 0 <= n < |init| && r in Candidates(ranked, init[n]);
      assert minimums[n] == init[n];
    }
  }

  lemma {:induction false} MinimumPassTakesAll(ranked: seq<Record>, minimums: seq<Minimum>, n: nat, k: nat)
    requires n < |minimums| && k < |Candidates(ranked, minimums[n])|
    ensures HasId(MinimumPass(ranked, minimums), Candidates(ranked, minimums[n])[k].id)
  {
    var init := minimums[..|minimums|-1];
    MinimumPassShape(ranked, init);
    AddNewGrows(MinimumPass(ranked, init), Candidates(ranked, minimums[|minimums|-1]));
    if n < |init| {
      MinimumPassTakesAll(ranked, init, n, k);
      HasIdPrefix(MinimumPass(ranked, init), MinimumPass(ranked, minimums), Candidates(ranked, minimums[n])[k].id);
    }
  }

  // A record the second pass added was taken when its turn came.
  lemma {:induction false} QuotaPassOrigin(q: Quotas, selected: seq<Record>, rs: seq<Record>, id: string) returns (k: nat)
    requires HasId(QuotaPass(q, selected, rs), id) && !HasId(selected, id)
    ensures k < |rs| && rs[k].id == id && Takes(q, QuotaPass(q, selected, rs[..k]), rs[k])
  {
    var n := |rs| - 1;
    var before := QuotaPass(q, selected, rs[..n]);
    if HasId(before, id) {
      k := QuotaPassOrigin(q, selected, rs[..n], id);
      assert rs[..n][..k] == rs[..k];
    } else {
      k := n;
      HasIdAppend(before, rs[n]);
    }
  }

  lemma SameId(s: seq<Record>, r: Record, j: nat)
    requires DistinctIds(s) && j < |s| && r in s && r.id == s[j].id
    ensures r == s[j]
  {
  }

  lemma MinimumPassRespectsRank(q: Quotas, ranked: seq<Record>, i: nat, j: nat)
    requires DistinctIds(ranked)
    requires i < j < |ranked| && ranked[i].source == ranked[j].source
    requires HasId(MinimumPass(ranked, q.minimums), ranked[j].id)
    ensures HasId(MinimumPass(ranked, q.minimums), ranked[i].id)
  {
    var base := MinimumPass(ranked, q.minimums);
    var x :| 0 <= x < |base| && base[x].id == ranked[j].id;
    MinimumPassMembers(ranked, q.minimums);
    SameId(ranked, base[x], j);
    MinimumPassOrigin(ranked, q.minimums, ranked[j]);
    var n :| 0 <= n < |q.minimums| && ranked[j] in Candidates(ranked, q.minimums[n]);
    var m := q.minimums[n];
    var k :| 0 <= k < |Candidates(ranked, m)| && Candidates(ranked, m)[k] == ranked[j];
    OfSourceShape(ranked, m.source);
    CandidatesClosed(ranked, m, i, j, k);
    var h :| 0 <= h < |Candidates(ranked, m)| && Candidates(ranked, m)[h] == ranked[i];
    MinimumPassTakesAll(ranked, q.minimums, n, h);
  }

  // Among records of one source, language and family the better ranked come first.
  lemma RespectsRank(q: Quotas, ranked: seq<Record>, i: nat, j: nat)
    requires DistinctIds(ranked)
    requires i < j < |ranked|
    requires ranked[i].source == ranked[j].source && ranked[i].language == ranked[j].language
             && ranked[i].family == ranked[j].family
    requires HasId(Mix(q, ranked), ranked[j].id)
    ensures HasId(Mix(q, ranked), ranked[i].id)
  {
    var base := MinimumPass(ranked, q.minimums);
    if HasId(base, ranked[j].id) {
      MinimumPassRespectsRank(q, ranked, i, j);
      QuotaPassGrows(q, base, ranked, 0);
      HasIdPrefix(base, Mix(q, ranked), ranked[i].id);
    } else {
      var k := QuotaPassOrigin(q, base, ranked, ranked[j].id);
      assert k == j;
      PassLeavesNothing(q, base, ranked[..j], i);
      QuotaPassGrows(q, base, ranked, j);
      HasIdPrefix(QuotaPass(q, base, ranked[..j]), Mix(q, ranked), ranked[i].id);
    }
  }

  // ---------- minimums ----------

  lemma {:induction false} AddNewDisjoint(selected: seq<Record>, rs: seq<Record>)
    requires DistinctIds(rs)
    requires forall i :: 0 <= i < |rs| ==> !HasId(selected, rs[i].id)
    ensures AddNew(selected, rs) == selected + rs
  {
    if rs != [] {
      var init, r := rs[..|rs|-1], rs[|rs|-1];
      AddNewDisjoint(selected, init);
      assert !HasId(selected, r.id);
    }
  }

  lemma {:induction false} CountOwn(s: seq<Record>, t: seq<Record>, source: string)
    requires forall i :: 0 <= i < |t| ==> t[i].source == source
    ensures Count(s + t, Source, source) == Count(s, Source, source) + |t|
  {
    if t == [] {
      assert s + t == s;
    } else {
      CountOwn(s, t[..|t|-1], source);
      assert (s + t)[..|s+t|-1] == s + t[..|t|-1];
    }
  }

  lemma {:induction false} MinimumForPresent(minimums: seq<Minimum>, n: nat)
    requires n < |minimums|
    requires forall i, j :: 0 <= i < j < |minimums| ==> minimums[i].source != minimums[j].source
    ensures MinimumFor(minimums, minimums[n].source) == Max(0, minimums[n].count)
  {
    if n < |minimums| - 1 {
      assert minimums[n].source != minimums[|minimums|-1].source;
      MinimumForPresent(minimums[..|minimums|-1], n);
    }
  }

  lemma FreshCandidate(ranked: seq<Record>, init: seq<Minimum>, m: Minimum, r: Record)
    requires DistinctIds(ranked) && r in ranked && r.source == m.source
    requires forall i :: 0 <= i < |init| ==> init[i].source != m.source
    ensures !HasId(MinimumPass(ranked, init), r.id)
  {
    var base := MinimumPass(ranked, init);
    if HasId(base, r.id) {
      var x :| 0 <= x < |base| && base[x].id == r.id;
      MinimumPassMembers(ranked, init);
      assert base[x] in ranked;
      MinimumPassOrigin(ranked, init, base[x]);
      var n :| 0 <= n < |init| && base[x] in Candidates(ranked, init[n]);
      OfSourceShape(ranked, init[n].source);
      assert false;
    }
  }

  // Every source gets its minimum, or all its records if there are fewer.
  lemma MinimumsMet(q: Quotas, ranked: seq<Record>, n: nat)
    requires DistinctIds(ranked) && DistinctMinimums(q) && n < |q.minimums|
    ensures Count(Mix(q, ranked), Source, q.minimums[n].source)
         >= Min(Max(0, q.minimums[n].count), Count(ranked, Source, q.minimums[n].source))
  {
    var base := MinimumPass(ranked, q.minimums);
    MinimumPassOfSource(ranked, q.minimums, q.minimums[n].source);
    MinimumForPresent(q.minimums, n);
    QuotaPassGrows(q, base, ranked, 0);
    CountPrefix(base, Mix(q, ranked), Source, q.minimums[n].source);
  }

  // ---------- exceeded quotas and limits ----------

  // A quota is exceeded exactly if the minimums alone already exceed it.
  lemma QuotaExceededExactly(q: Quotas, ranked: seq<Record>, a: Attribute, v: string)
    requires v in q.Of(a)
    ensures Count(Mix(q, ranked), a, v) > q.Of(a)[v]
       <==> Count(MinimumPass(ranked, q.minimums), a, v) > q.Of(a)[v]
  {
    var base := MinimumPass(ranked, q.minimums);
    QuotaPassCounts(q, base, ranked, a, v);
    QuotaPassGrows(q, base, ranked, 0);
    CountPrefix(base, Mix(q, ranked), a, v);
  }

  // What the minimums bring in: each source its minimum, or all it has.
  function TotalAvailable(ranked: seq<Record>, minimums: seq<Minimum>): nat {
    if minimums == [] then 0
    else
      var m := minimums[|minimums|-1];
      TotalAvailable(ranked, minimums[..|minimums|-1]) + Min(Max(0, m.count), Count(ranked, Source, m.source))
  }

  lemma LastMinimum(ranked: seq<Record>, minimums: seq<Minimum>)
    requires DistinctIds(ranked) && minimums != []
    requires forall i, j :: 0 <= i < j < |minimums| ==> minimums[i].source != minimums[j].source
    ensures var m := minimums[|minimums|-1];
      && MinimumPass(ranked, minimums) == MinimumPass(ranked, minimums[..|minimums|-1]) + Candidates(ranked, m)
      && |Candidates(ranked, m)| == Min(Max(0, m.count), Count(ranked, Source, m.source))
      && forall i :: 0 <= i < |Candidates(ranked, m)| ==> Candidates(ranked, m)[i].source == m.source
  {
    var init, m := minimums[..|minimums|-1], minimums[|minimums|-1];
    var own := Candidates(ranked, m);
    OfSourceShape(ranked, m.source);
    OfSourceDistinct(ranked, m.source);
    forall i | 0 <= i < |own| ensures !HasId(MinimumPass(ranked, init), own[i].id) {
      FreshCandidate(ranked, init, m, own[i]);
    }
    AddNewDisjoint(MinimumPass(ranked, init), own);
  }

  lemma {:induction false} MinimumPassSize(ranked: seq<Record>, minimums: seq<Minimum>)
    requires DistinctIds(ranked)
    requires forall i, j :: 0 <= i < j < |minimums| ==> minimums[i].source != minimums[j].source
    ensures |MinimumPass(ranked, minimums)| == TotalAvailable(ranked, minimums)
  {
    if minimums != [] {
      MinimumPassSize(ranked, minimums[..|minimums|-1]);
      LastMinimum(ranked, minimums);
    }
  }

  // The limit is exceeded exactly if the minimums bring in more records than it allows.
  lemma LimitExceededExactly(q: Quotas, ranked: seq<Record>)
    requires DistinctIds(ranked) && DistinctMinimums(q)
    ensures |Mix(q, ranked)| > Limit(q) <==> TotalAvailable(ranked, q.minimums) > Limit(q)
  {
    var base := MinimumPass(ranked, q.minimums);
    MinimumPassSize(ranked, q.minimums);
    MinimumPassShape(ranked, q.minimums);
    QuotaPassShape(q, base, ranked);
    QuotaPassGrows(q, base, ranked, 0);
  }

  lemma {:induction false} CountOther(s: seq<Record>, t: seq<Record>, source: string, v: string)
    requires v != source && forall i :: 0 <= i < |t| ==> t[i].source == source
    ensures Count(s + t, Source, v) == Count(s, Source, v)
  {
    if t == [] {
      assert s + t == s;
    } else {
      CountOther(s, t[..|t|-1], source, v);
      assert (s + t)[..|s+t|-1] == s + t[..|t|-1];
    }
  }

  lemma {:induction false} MinimumPassOfSource(ranked: seq<Record>, minimums: seq<Minimum>, v: string)
    requires DistinctIds(ranked)
    requires forall i, j :: 0 <= i < j < |minimums| ==> minimums[i].source != minimums[j].source
    ensures Count(MinimumPass(ranked, minimums), Source, v) == Min(MinimumFor(minimums, v), Count(ranked, Source, v))
  {
    if minimums != [] {
      var init, m := minimums[..|minimums|-1], minimums[|minimums|-1];
      MinimumPassOfSource(ranked, init, v);
      LastMinimum(ranked, minimums);
      if v == m.source {
        MinimumForAbsent(init, v);
        CountOwn(MinimumPass(ranked, init), Candidates(ranked, m), v);
      } else {
        CountOther(MinimumPass(ranked, init), Candidates(ranked, m), m.source, v);
      }
    }
  }

  // A source quota is exceeded exactly if the minimum of the source, or all its
  // records when there are fewer, exceeds it.
  lemma SourceExceededExactly(q: Quotas, ranked: seq<Record>, v: string)
    requires DistinctIds(ranked) && DistinctMinimums(q) && v in q.source
    ensures Count(Mix(q, ranked), Source, v) > q.source[v]
       <==> Min(MinimumFor(q.minimums, v), Count(ranked, Source, v)) > q.source[v]
  {
    QuotaExceededExactly(q, ranked, Source, v);
    MinimumPassOfSource(ranked, q.minimums, v);
  }

  lemma CountTwo(r: Record, r': Record, a: Attribute)
    requires Get(r, a) == Get(r', a)
    ensures Count([r, r'], a, Get(r, a)) == 2
  {
    CountAppend([], r);
    CountAppend([r], r');
    assert [] + [r] == [r] && [r] + [r'] == [r, r'];
  }

  lemma TwoOfOneSource(r: Record, r': Record)
    requires r.id != r'.id && r.source == r'.source
    ensures MinimumPass([r, r'], [Minimum(r.source, 2)]) == [r, r']
  {
    var ranked, m := [r, r'], Minimum(r.source, 2);
    assert ranked[..1] == [r] && [r][..0] == [];
    assert OfSource([r], r.source) == [r];
    assert OfSource(ranked, r.source) == ranked;
    assert Candidates(ranked, m) == ranked;
    AddNewDisjoint([], ranked);
    assert [m][..0] == [] && MinimumPass(ranked, []) == [];
  }

  // A language quota of one, and two records in that language by a minimum.
  lemma LanguageQuotaExceeded(r: Record, r': Record, maxRecords: int)
    requires r.id != r'.id && r.source == r'.source && r.language == r'.language
    ensures var q := Quotas(maxRecords, map[r.language := 1], map[], map[], [Minimum(r.source, 2)]);
      Count(Mix(q, [r, r']), Language, r.language) > q.language[r.language]
  {
    TwoOfOneSource(r, r');
    CountTwo(r, r', Language);
    QuotaExceededExactly(Quotas(maxRecords, map[r.language := 1], map[], map[], [Minimum(r.source, 2)]),
                         [r, r'], Language, r.language);
  }

  // A limit of one record, and two records by a minimum.
  lemma LimitExceeded(r: Record, r': Record)
    requires r.id != r'.id && r.source == r'.source
    ensures var q := Quotas(1, map[], map[], map[], [Minimum(r.source, 2)]);
      |Mix(q, [r, r'])| > Limit(q)
  {
    var q := Quotas(1, map[], map[], map[], [Minimum(r.source, 2)]);
    TwoOfOneSource(r, r');
    QuotaPassGrows(q, [r, r'], [r, r'], 0);
  }
}
