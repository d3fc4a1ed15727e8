/**
  Semantic search: the ranking, the cut to top_k and the expiry filter after it.
 */
module Search {
  import opened Outcomes
  import opened Lists
  import opened Text
  import opened Cosine
  import opened Memories
  import opened MemoryRuns
  import opened DummyEmbedder

  // ---------- what is scored ----------

  predicate Unexpired(m: Memory, now: real) {
    m.expiresAt.Some? ==> now <= m.expiresAt.value
  }

  /**
    A candidate: an undeleted row of the tenant and, if one is given, of the type, that
    has a nonempty vector; with its similarity to the query.
   */
  ghost predicate IsScored(sqrt: real -> real, s: Store, tenant: string, query: Vector, memoryType: Option<string>,
                           r: (Memory, real)) {
    && r.0 in s.memories && r.0.tenant == tenant && !r.0.deleted
    && (memoryType.Some? && memoryType.value != "" ==> r.0.memoryType == memoryType.value)
    && r.0.id in s.embeddings && s.embeddings[r.0.id].vector != []
    && r.1 == Similarity(sqrt, query, s.embeddings[r.0.id].vector)
  }

  lemma {:induction false} ScoreRowsMember(sqrt: real -> real, query: Vector, embeddings: map<Id, Embedding>,
                                           rows: seq<Memory>, r: (Memory, real))
    ensures r in ScoreRows(sqrt, query, embeddings, rows) <==>
      && r.0 in rows && r.0.id in embeddings && embeddings[r.0.id].vector != []
      && r.1 == Similarity(sqrt, query, embeddings[r.0.id].vector)
  {
    if rows != [] {
      ScoreRowsMember(sqrt, query, embeddings, rows[1..], r);
      hide Similarity;
      assert r.0 in rows <==> r.0 == rows[0] || r.0 in rows[1..];
    }
  }

  /** Exactly the candidates are ranked. */
  lemma RankingMember(sqrt: real -> real, s: Store, tenant: string, query: Vector, memoryType: Option<string>,
                      r: (Memory, real))
    ensures r in Ranking(sqrt, s, tenant, query, memoryType) <==> IsScored(sqrt, s, tenant, query, memoryType, r)
  {
    var p := Joined(s.embeddings, tenant, memoryType);
    SortMember(ByScore(), Scored(sqrt, s, tenant, query, memoryType), r);
    ScoreRowsMember(sqrt, query, s.embeddings, Filter(p, s.memories), r);
    FilterMember(p, s.memories, r.0);
    assert OfType(memoryType)(r.0) <==> (memoryType.Some? && memoryType.value != "" ==> r.0.memoryType == memoryType.value);
    hide Similarity, ScoreRows, Filter, SortDesc;
  }

  lemma RankingSorted(sqrt: real -> real, s: Store, tenant: string, query: Vector, memoryType: Option<string>)
    ensures SortedDesc(ByScore(), Ranking(sqrt, s, tenant, query, memoryType))
  {
    SortSorts(ByScore(), Scored(sqrt, s, tenant, query, memoryType));
  }

  lemma {:induction false} FilterKeepsOrder<T>(key: T -> real, p: T -> bool, xs: seq<T>)
    requires SortedDesc(key, xs)
    ensures SortedDesc(key, Filter(p, xs))
  {
    if xs != [] {
      FilterKeepsOrder(key, p, xs[1..]);
      var rest := Filter(p, xs[1..]);
      forall j | 0 <= j < |rest|
        ensures key(xs[0]) >= key(rest[j])
      {
        FilterMember(p, xs[1..], rest[j]);
        var i :| 0 <= i < |xs[1..]| && xs[1..][i] == rest[j];
        assert xs[1..][i] == xs[i + 1];
      }
    }
  }

  /**
    The answer of a search is a true top-k: at most k entries in descending order, each a
    live undeleted row of the tenant and type with its similarity, and no live candidate
    that is left out scores above one that is returned.
   */
  lemma {:induction false} TrueTopK(sqrt: real -> real, s: Store, tenant: string, query: Vector, k: nat,
                                    memoryType: Option<string>, now: real)
    ensures var answer := SearchLive(sqrt, s, tenant, query, k, memoryType, now);
      && |answer| <= k
      && (forall i, j :: 0 <= i < j < |answer| ==> answer[i].1 >= answer[j].1)
      && (forall r :: r in answer ==> IsScored(sqrt, s, tenant, query, memoryType, r) && Unexpired(r.0, now))
      && (forall r, x | r in answer && IsScored(sqrt, s, tenant, query, memoryType, x) && Unexpired(x.0, now) ::
            x !in answer ==> x.1 <= r.1)
  {
    var ranking := Ranking(sqrt, s, tenant, query, memoryType);
    var top := Take(ranking, k);
    var answer := Filter(LiveResult(now), top);
    RankingSorted(sqrt, s, tenant, query, memoryType);
    hide Ranking, Scored, IsScored, SortDesc, Filter;
    FilterKeepsOrder(ByScore(), LiveResult(now), top);
    forall i, j | 0 <= i < j < |answer|
      ensures answer[i].1 >= answer[j].1
    {
      assert ByScore()(answer[i]) >= ByScore()(answer[j]);
    }
    forall r | r in answer
      ensures IsScored(sqrt, s, tenant, query, memoryType, r) && Unexpired(r.0, now)
    {
      FilterMember(LiveResult(now), top, r);
      RankingMember(sqrt, s, tenant, query, memoryType, r);
    }
    forall r, x | r in answer && IsScored(sqrt, s, tenant, query, memoryType, x) && Unexpired(x.0, now) && x !in answer
      ensures x.1 <= r.1
    {
      RankingMember(sqrt, s, tenant, query, memoryType, x);
      FilterMember(LiveResult(now), top, r);
      FilterMember(LiveResult(now), top, x);
      OutsideTakeIsBelow(ranking, k, r, x);
    }
  }

  /**
    The answer in columns: only undeleted, unexpired rows of the tenant, and of the type
    if one is given, each with the similarity of its own vector.
   */
  lemma {:induction false} AnswerColumns(sqrt: real -> real, s: Store, tenant: string, query: Vector, k: nat,
                                         memoryType: Option<string>, now: real, r: (Memory, real))
    requires r in SearchLive(sqrt, s, tenant, query, k, memoryType, now)
    ensures r.0 in s.memories && r.0.tenant == tenant && !r.0.deleted
    ensures !(r.0.expiresAt.Some? && r.0.expiresAt.value < now)
    ensures memoryType.Some? && memoryType.value != "" ==> r.0.memoryType == memoryType.value
    ensures r.0.id in s.embeddings && r.1 == Similarity(sqrt, query, s.embeddings[r.0.id].vector)
  {
    TrueTopK(sqrt, s, tenant, query, k, memoryType, now);
    hide SearchLive, Similarity;
  }

  /** Conversely, each such row with a nonempty vector is a candidate, and is returned if the candidates number at most k. */
  lemma {:induction false} CandidateReturned(sqrt: real -> real, s: Store, tenant: string, query: Vector, k: nat,
                                             memoryType: Option<string>, now: real, m: Memory)
    requires m in s.memories && m.tenant == tenant && !m.deleted && !(m.expiresAt.Some? && m.expiresAt.value < now)
    requires memoryType.Some? && memoryType.value != "" ==> m.memoryType == memoryType.value
    requires m.id in s.embeddings && s.embeddings[m.id].vector != []
    ensures var r := (m, Similarity(sqrt, query, s.embeddings[m.id].vector));
      && r in Ranking(sqrt, s, tenant, query, memoryType)
      && (|Ranking(sqrt, s, tenant, query, memoryType)| <= k ==> r in SearchLive(sqrt, s, tenant, query, k, memoryType, now))
  {
    var r := (m, Similarity(sqrt, query, s.embeddings[m.id].vector));
    RankingMember(sqrt, s, tenant, query, memoryType, r);
    hide Ranking, Similarity;
    FilterMember(LiveResult(now), Take(Ranking(sqrt, s, tenant, query, memoryType), k), r);
  }

  lemma {:induction false} ScoreMultiplicity(sqrt: real -> real, query: Vector, embeddings: map<Id, Embedding>,
                                             rows: seq<Memory>, r: (Memory, real))
    ensures multiset(ScoreRows(sqrt, query, embeddings, rows))[r] <= multiset(rows)[r.0]
  {
    if rows != [] {
      ScoreMultiplicity(sqrt, query, embeddings, rows[1..], r);
      hide Similarity;
      assert rows == [rows[0]] + rows[1..];
      assert multiset(rows) == multiset{rows[0]} + multiset(rows[1..]);
    }
  }

  /** No candidate is ranked twice. */
  lemma {:induction false} RankedOnce(sqrt: real -> real, s: Store, tenant: string, query: Vector, memoryType: Option<string>,
                                      r: (Memory, real))
    requires UniqueIds(s.memories)
    ensures multiset(Ranking(sqrt, s, tenant, query, memoryType))[r] <= 1
  {
    var p := Joined(s.embeddings, tenant, memoryType);
    SortSorts(ByScore(), Scored(sqrt, s, tenant, query, memoryType));
    ScoreMultiplicity(sqrt, query, s.embeddings, Filter(p, s.memories), r);
    FilterMultiplicity(p, s.memories, r.0);
    UniqueRows(s.memories, r.0);
    hide UniqueIds, ScoreRows, Filter, SortDesc;
  }

  lemma OutsideTakeIsBelow(ranking: seq<(Memory, real)>, k: nat, r: (Memory, real), x: (Memory, real))
    requires SortedDesc(ByScore(), ranking)
    requires r in Take(ranking, k) && x in ranking && x !in Take(ranking, k)
    ensures x.1 <= r.1
  {
    var i :| 0 <= i < |Take(ranking, k)| && Take(ranking, k)[i] == r;
    var j :| 0 <= j < |ranking| && ranking[j] == x;
    assert forall a :: 0 <= a < |Take(ranking, k)| ==> ranking[a] in Take(ranking, k);
    assert ByScore()(ranking[i]) >= ByScore()(ranking[j]);
  }

  // ---------- the cut comes before the expiry filter ----------

  /** What the search would return if expired rows were dropped before the cut. */
  function IdealAnswer(sqrt: real -> real, s: Store, tenant: string, query: Vector, k: int,
                       memoryType: Option<string>, now: real): seq<(Memory, real)> {
    Take(Filter(LiveResult(now), Ranking(sqrt, s, tenant, query, memoryType)), k)
  }

  /**
    The answer is always a prefix of the live top-k. It is the whole live top-k exactly
    when every one of the k best rows is live or no live row comes after them.
   */
  lemma {:induction false} CutThenFilter(sqrt: real -> real, s: Store, tenant: string, query: Vector, k: nat,
                                         memoryType: Option<string>, now: real)
    ensures var ranking := Ranking(sqrt, s, tenant, query, memoryType);
      var answer := SearchLive(sqrt, s, tenant, query, k, memoryType, now);
      var ideal := IdealAnswer(sqrt, s, tenant, query, k, memoryType, now);
      && answer <= ideal
      && (answer == ideal <==>
            || (forall i :: 0 <= i < |ranking| && i < k ==> !IsExpired(ranking[i].0, now))
            || (forall i :: k <= i < |ranking| ==> IsExpired(ranking[i].0, now)))
  {
    var ranking := Ranking(sqrt, s, tenant, query, memoryType);
    hide Ranking;
    CutVersusFilter(LiveResult(now), ranking, k);
    hide Filter, Take;
    var live := LiveResult(now);
    assert forall i :: 0 <= i < |ranking| ==> live(ranking[i]) == !IsExpired(ranking[i].0, now);
  }

  ghost predicate AllBefore<T>(p: T -> bool, xs: seq<T>, k: nat) {
    forall i :: 0 <= i < |xs| && i < k ==> p(xs[i])
  }

  ghost predicate NoneFrom<T>(p: T -> bool, xs: seq<T>, k: nat) {
    forall i :: k <= i < |xs| ==> !p(xs[i])
  }

  lemma CutVersusFilter<T>(p: T -> bool, xs: seq<T>, k: nat)
    ensures Filter(p, Take(xs, k)) <= Take(Filter(p, xs), k)
    ensures Filter(p, Take(xs, k)) == Take(Filter(p, xs), k) <==> AllBefore(p, xs, k) || NoneFrom(p, xs, k)
  {
    var head := Take(xs, k);
    var tail := xs[|head|..];
    assert xs == head + tail;
    hide Filter, Take, AllBefore, NoneFrom;
    FilterConcat(p, head, tail);
    AllKept(p, head);
    NoneKept(p, tail);
    SplitAtCut(p, xs, k, head, tail);
    CutOfConcat(Filter(p, head), Filter(p, tail), k);
  }

  lemma CutOfConcat<T>(xs: seq<T>, ys: seq<T>, k: nat)
    requires |xs| <= k
    ensures xs <= Take(xs + ys, k)
    ensures xs == Take(xs + ys, k) <==> |xs| == k || ys == []
  {
  }

  lemma SplitAtCut<T>(p: T -> bool, xs: seq<T>, k: nat, head: seq<T>, tail: seq<T>)
    requires head == Take(xs, k) && tail == xs[|head|..]
    ensures |head| <= k && (|head| == k || tail == [])
    ensures AllBefore(p, xs, k) <==> AllBefore(p, head, |head|)
    ensures NoneFrom(p, xs, k) <==> NoneFrom(p, tail, 0)
  {
    assert forall i :: 0 <= i < |tail| ==> tail[i] == xs[|head| + i];
    assert forall i :: |head| <= i < |xs| ==> xs[i] == tail[i - |head|];
  }

  lemma {:induction false} AllKept<T>(p: T -> bool, xs: seq<T>)
    ensures |Filter(p, xs)| == |xs| <==> AllBefore(p, xs, |xs|)
  {
    if xs != [] {
      AllKept(p, xs[1..]);
      assert forall i :: 0 < i < |xs| ==> xs[i] == xs[1..][i - 1];
      assert forall i :: 0 <= i < |xs[1..]| ==> xs[1..][i] == xs[i + 1];
    }
  }

  lemma {:induction false} NoneKept<T>(p: T -> bool, xs: seq<T>)
    ensures Filter(p, xs) == [] <==> NoneFrom(p, xs, 0)
  {
    if xs != [] {
      NoneKept(p, xs[1..]);
      assert forall i :: 0 < i < |xs| ==> xs[i] == xs[1..][i - 1];
      assert forall i :: 0 <= i < |xs[1..]| ==> xs[1..][i] == xs[i + 1];
    }
  }

  // ---------- clean-up before a search ----------

  /** The test of a row, applied to the row of a scored pair. */
  function OnRow(p: Memory -> bool): ((Memory, real)) -> bool {
    (r: (Memory, real)) => p(r.0)
  }

  lemma {:induction false} ScoreFiltered(sqrt: real -> real, query: Vector, embeddings: map<Id, Embedding>,
                                         p: Memory -> bool, rows: seq<Memory>)
    ensures ScoreRows(sqrt, query, embeddings, Filter(p, rows)) ==
            Filter(OnRow(p), ScoreRows(sqrt, query, embeddings, rows))
  {
    if rows != [] {
      ScoreFiltered(sqrt, query, embeddings, p, rows[1..]);
      hide Similarity;
      var rest := ScoreRows(sqrt, query, embeddings, rows[1..]);
      if rows[0].id in embeddings && embeddings[rows[0].id].vector != [] {
        FilterCons(OnRow(p), (rows[0], Similarity(sqrt, query, embeddings[rows[0].id].vector)), rest);
      }
      if p(rows[0]) {
        assert ([rows[0]] + Filter(p, rows[1..]))[1..] == Filter(p, rows[1..]);
      }
    }
  }

  /** After a clean-up the ranking is the old one without the due rows. */
  lemma CleanedRanking(sqrt: real -> real, s: Store, cleaned: string, c: real, tenant: string, query: Vector,
                       memoryType: Option<string>)
    ensures Ranking(sqrt, Cleanup(s, cleaned, c).0, tenant, query, memoryType) ==
            Filter(OnRow(Not(Due(cleaned, c))), Ranking(sqrt, s, tenant, query, memoryType))
  {
    var p, kept := Joined(s.embeddings, tenant, memoryType), Not(Due(cleaned, c));
    hide Similarity, SortDesc;
    CleanedSelection(s, cleaned, c, p);
    FilterCommute(p, kept, s.memories);
    ScoreFiltered(sqrt, query, s.embeddings, kept, Filter(p, s.memories));
    FilterSort(ByScore(), OnRow(kept), Scored(sqrt, s, tenant, query, memoryType));
  }

  /**
    Running the clean-up at c before a search at a later time never loses an answer: the
    search without it returns a prefix of what the search with it returns.
   */
  lemma {:induction false} CleanupBeforeSearch(sqrt: real -> real, s: Store, cleaned: string, c: real, tenant: string,
                                               query: Vector, k: nat, memoryType: Option<string>, now: real)
    requires c < now
    ensures SearchLive(sqrt, s, tenant, query, k, memoryType, now) <=
            SearchLive(sqrt, Cleanup(s, cleaned, c).0, tenant, query, k, memoryType, now)
  {
    CleanedRanking(sqrt, s, cleaned, c, tenant, query, memoryType);
    var ranking, kept := Ranking(sqrt, s, tenant, query, memoryType), OnRow(Not(Due(cleaned, c)));
    hide Ranking, Filter, Cleanup;
    assert forall r: (Memory, real) :: LiveResult(now)(r) ==> kept(r);
    CutAfterRemoval(LiveResult(now), kept, ranking, k);
  }

  // ---------- exact matches ----------

  /** The top score. */
  function ScoresOne(): ((Memory, real)) -> bool {
    (r: (Memory, real)) => r.1 == 1.0
  }

  lemma NothingAboveOne(sqrt: real -> real, s: Store, tenant: string, query: Vector, memoryType: Option<string>,
                        r: (Memory, real))
    requires IsSqrt(sqrt) && IsScored(sqrt, s, tenant, query, memoryType, r)
    ensures -1.0 <= r.1 <= 1.0
  {
    SimilarityRange(sqrt, query, s.embeddings[r.0.id].vector);
  }

  /** In a descending list without scores above 1, the entries that score 1 come first. */
  lemma OnesComeFirst(ranking: seq<(Memory, real)>, i: nat)
    requires SortedDesc(ByScore(), ranking) && forall r :: r in ranking ==> r.1 <= 1.0
    requires i < |ranking| && ranking[i].1 == 1.0
    ensures i < |Filter(ScoresOne(), ranking)|
    ensures forall j :: 0 <= j <= i ==> ranking[j].1 == 1.0
  {
    forall j | 0 <= j <= i
      ensures ranking[j].1 == 1.0
    {
      assert ranking[j] in ranking;
      assert j < i ==> ByScore()(ranking[j]) >= ByScore()(ranking[i]);
    }
    var head := ranking[..i + 1];
    assert forall r :: r in head ==> ScoresOne()(r);
    FilterAll(ScoresOne(), head);
    FilterPrefix(ScoresOne(), head, ranking);
  }

  /**
    If at most k candidates score 1, every live row that scores 1 is returned, and
    everything returned ahead of it scores 1 as well.
   */
  lemma {:induction false} PerfectScoresReturned(sqrt: real -> real, s: Store, tenant: string, query: Vector, k: nat,
                                                 memoryType: Option<string>, now: real, m: Memory)
    requires IsSqrt(sqrt)
    requires |Filter(ScoresOne(), Ranking(sqrt, s, tenant, query, memoryType))| <= k
    requires IsScored(sqrt, s, tenant, query, memoryType, (m, 1.0)) && !IsExpired(m, now)
    ensures var answer := SearchLive(sqrt, s, tenant, query, k, memoryType, now);
      && (m, 1.0) in answer
      && (forall i, j :: 0 <= i <= j < |answer| && answer[j] == (m, 1.0) ==> answer[i].1 == 1.0)
  {
    var ranking := Ranking(sqrt, s, tenant, query, memoryType);
    RankingSorted(sqrt, s, tenant, query, memoryType);
    RankingMember(sqrt, s, tenant, query, memoryType, (m, 1.0));
    TrueTopK(sqrt, s, tenant, query, k, memoryType, now);
    hide Ranking, Scored, IsScored, Filter, Joined;
    forall r | r in ranking
      ensures r.1 <= 1.0
    {
      RankingMember(sqrt, s, tenant, query, memoryType, r);
      NothingAboveOne(sqrt, s, tenant, query, memoryType, r);
    }
    var p :| 0 <= p < |ranking| && ranking[p] == (m, 1.0);
    OnesComeFirst(ranking, p);
    assert Take(ranking, k)[p] == (m, 1.0);
    FilterMember(LiveResult(now), Take(ranking, k), (m, 1.0));
    var answer := SearchLive(sqrt, s, tenant, query, k, memoryType, now);
    forall i, j | 0 <= i <= j < |answer| && answer[j] == (m, 1.0)
      ensures answer[i].1 == 1.0
    {
      assert i < j ==> ByScore()(answer[i]) >= ByScore()(answer[j]);
      assert answer[i] in answer;
      FilterMember(LiveResult(now), Take(ranking, k), answer[i]);
    }
  }

  /**
    In any store: with the dummy embedder in two or more dimensions, a live row that
    carries the query's vector is found with score 1, ahead of everything that scores
    less, provided at most k candidates reach that score.
   */
  lemma {:induction false} ExactMatchInStore(seed: nat, dimensions: int, sqrt: real -> real, s: Store, m: Memory, k: nat,
                                             memoryType: Option<string>, now: real)
    requires IsSqrt(sqrt) && dimensions >= 2
    requires m in s.memories && !m.deleted && Unexpired(m, now)
    requires memoryType.Some? && memoryType.value != "" ==> m.memoryType == memoryType.value
    requires m.id in s.embeddings && s.embeddings[m.id].vector == HashVector(seed, dimensions)
    requires |Filter(ScoresOne(), Ranking(sqrt, s, m.tenant, HashVector(seed, dimensions), memoryType))| <= k
    ensures var answer := SearchLive(sqrt, s, m.tenant, HashVector(seed, dimensions), k, memoryType, now);
      && (m, 1.0) in answer
      && (forall a, b :: 0 <= a <= b < |answer| && answer[b] == (m, 1.0) ==> answer[a].1 == 1.0)
  {
    var q := HashVector(seed, dimensions);
    hide HashVector, Squares, Ranking, SearchLive;
    ZeroNormIff(seed, dimensions);
    SelfSimilarity(sqrt, q);
    PerfectScoresReturned(sqrt, s, m.tenant, q, k, memoryType, now, m);
  }

  /**
    End to end, after any history: with the dummy embedder in two or more dimensions, a
    live memory whose content is not blank and equals the query is found, ahead of
    everything that scores less, provided at most k candidates reach the top score.
    The history may write blank texts, which the embedder rejects, to any memory, and
    calls for other memories may have been answered in any way.
   */
  lemma {:induction false} ExactMatchFound(cfg: Config, seedOf: string -> nat, dimensions: int, sqrt: real -> real,
                                           ops: seq<Op>, i: nat, k: nat, memoryType: Option<string>, now: real)
    requires IsSqrt(sqrt) && dimensions >= 2
    requires i < |Exec(cfg, EMPTY, ops).memories|
    requires var m := Exec(cfg, EMPTY, ops).memories[i];
      && (forall j :: 0 <= j < |ops| && Concerns(ops[j], m.id) ==> Faithful(Model(seedOf, dimensions), ops[j]))
      && !m.deleted && Unexpired(m, now) && !IsBlank(m.content)
      && (memoryType.Some? && memoryType.value != "" ==> m.memoryType == memoryType.value)
    requires var s := Exec(cfg, EMPTY, ops); var m := s.memories[i];
      |Filter(ScoresOne(), Ranking(sqrt, s, m.tenant, Embed(seedOf, dimensions, m.content).value, memoryType))| <= k
    ensures var s := Exec(cfg, EMPTY, ops); var m := s.memories[i];
      var answer := SearchLive(sqrt, s, m.tenant, Embed(seedOf, dimensions, m.content).value, k, memoryType, now);
      && (m, 1.0) in answer
      && (forall a, b :: 0 <= a <= b < |answer| && answer[b] == (m, 1.0) ==> answer[a].1 == 1.0)
  {
    var s := Exec(cfg, EMPTY, ops);
    var m := s.memories[i];
    EmbeddingsCurrent(cfg, Model(seedOf, dimensions), ops, i);
    hide Exec, HashVector, Faithful, Squares, Ranking, SearchLive;
    assert m in s.memories;
    ExactMatchInStore(seedOf(m.content), dimensions, sqrt, s, m, k, memoryType, now);
  }

  // ---------- an answer that falls short ----------

  function Note(content: string, ttlDays: int): Draft {
    Draft("t", "s", "u", content, None, 1.0, "general", Some(ttlDays))
  }

  /** Two memories, of which the first lives for one day and the second for ten. */
  function TwoNotes(cfg: Config): Store {
    Exec(cfg, EMPTY, [AddOp(1, Note("short", 1), Some([1.0, 0.0]), 0.0), AddOp(2, Note("long", 10), Some([0.0, 1.0]), 0.0)])
  }

  lemma TwoNotesStored(cfg: Config)
    ensures var short, long := NewMemory(cfg, 1, Note("short", 1), 0.0), NewMemory(cfg, 2, Note("long", 10), 0.0);
      TwoNotes(cfg) == Store([short, long], map[1 := Embedding([1.0, 0.0], 2), 2 := Embedding([0.0, 1.0], 2)])
  {
    var ops := [AddOp(1, Note("short", 1), Some([1.0, 0.0]), 0.0), AddOp(2, Note("long", 10), Some([0.0, 1.0]), 0.0)];
    var short := NewMemory(cfg, 1, Note("short", 1), 0.0);
    assert ops[..1] == [ops[0]] && ops[..1][..0] == [];
    assert Exec(cfg, EMPTY, ops[..1]) == Store([short], map[1 := Embedding([1.0, 0.0], 2)]);
    assert [short][1..] == [];
  }

  lemma UnitScores(sqrt: real -> real)
    requires IsSqrt(sqrt)
    ensures Similarity(sqrt, [1.0, 0.0], [1.0, 0.0]) == 1.0
    ensures Similarity(sqrt, [1.0, 0.0], [0.0, 1.0]) == 0.0
  {
    var v: Vector, w: Vector := [1.0, 0.0], [0.0, 1.0];
    assert v[1..] == [0.0] && w[1..] == [1.0] && v[1..][1..] == [] && w[1..][1..] == [];
    assert Squares(v) == 1.0 && Squares(w) == 1.0 && Dot(v, w) == 0.0;
    SelfSimilarity(sqrt, v);
    hide Squares, Dot;
    var n, m := ScoreOf(sqrt, v, w);
  }

  /** Of two candidates, the one that scores higher is ranked first. */
  lemma PairRanked(sqrt: real -> real, x: Memory, y: Memory, embeddings: map<Id, Embedding>, tenant: string, query: Vector)
    requires Joined(embeddings, tenant, None)(x) && embeddings[x.id].vector != []
    requires Joined(embeddings, tenant, None)(y) && embeddings[y.id].vector != []
    requires Similarity(sqrt, query, embeddings[x.id].vector) > Similarity(sqrt, query, embeddings[y.id].vector)
    ensures Ranking(sqrt, Store([x, y], embeddings), tenant, query, None) ==
            [(x, Similarity(sqrt, query, embeddings[x.id].vector)), (y, Similarity(sqrt, query, embeddings[y.id].vector))]
  {
    hide Similarity;
    var first := (x, Similarity(sqrt, query, embeddings[x.id].vector));
    var second := (y, Similarity(sqrt, query, embeddings[y.id].vector));
    FilterAll(Joined(embeddings, tenant, None), [x, y]);
    assert [x, y][1..] == [y] && [y][1..] == [];
    assert ScoreRows(sqrt, query, embeddings, [y]) == [second];
    assert ScoreRows(sqrt, query, embeddings, [x, y]) == [first, second];
    hide ScoreRows;
    assert [first, second][1..] == [second] && [second][1..] == [];
    assert SortDesc(ByScore(), [second]) == [second];
  }

  /** A cut to the first of two entries before a filter that keeps only the second. */
  lemma CutLosesSecond<T>(p: T -> bool, first: T, second: T)
    requires !p(first) && p(second)
    ensures Filter(p, Take([first, second], 1)) == []
    ensures Filter(p, Take([first, second], 2)) == [second]
    ensures Take(Filter(p, [first, second]), 1) == [second]
  {
    assert Take([first, second], 1) == [first] && Take([first, second], 2) == [first, second];
    FilterNothing(p, [first]);
    FilterAll(p, [second]);
    assert [first, second] == [first] + [second];
    FilterCons(p, first, [second]);
  }

  /**
    On the second day the expired memory still ranks first: a search for one result
    returns nothing, while a search for two returns the live memory.
   */
  lemma {:induction false} SearchFallsShort(cfg: Config, sqrt: real -> real)
    requires IsSqrt(sqrt)
    ensures var long := NewMemory(cfg, 2, Note("long", 10), 0.0);
      && SearchLive(sqrt, TwoNotes(cfg), "t", [1.0, 0.0], 1, None, 100000.0) == []
      && SearchLive(sqrt, TwoNotes(cfg), "t", [1.0, 0.0], 2, None, 100000.0) == [(long, 0.0)]
      && IdealAnswer(sqrt, TwoNotes(cfg), "t", [1.0, 0.0], 1, None, 100000.0) == [(long, 0.0)]
  {
    var short, long := NewMemory(cfg, 1, Note("short", 1), 0.0), NewMemory(cfg, 2, Note("long", 10), 0.0);
    TwoNotesStored(cfg);
    UnitScores(sqrt);
    hide Ranking, TwoNotes, Similarity, Filter, Take;
    assert OfType(None)(short) && OfType(None)(long);
    PairRanked(sqrt, short, long, TwoNotes(cfg).embeddings, "t", [1.0, 0.0]);
    CutLosesSecond(LiveResult(100000.0), (short, 1.0), (long, 0.0));
  }
}
