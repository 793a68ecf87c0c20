/**
 * The journal search of the metadata client once the HTTP exchange is
 * replaced by its outcome: each raw `serial-metadata-response` entry is
 * mapped to a Journal, the list is ranked by CiteScore (highest first,
 * missing scores last) and cut to the first 20.
 */
module Ranking {
  import opened JsValues

  const NotAvailable := "N/A"
  const ScopusSource := "scopus-source"
  const MaxResults := 20

  /** An element of an entry's `link` array: its `@ref` and `@href`. */
  datatype Link = Link(refType: Option<string>, href: Option<string>)

  /** `citeScoreYearInfoList`, reduced to its `citeScoreCurrentMetric`, read as a number. */
  datatype CiteScoreYearInfo = CiteScoreYearInfo(currentMetric: Option<int>)

  /** One raw entry of the provider's response. */
  datatype RawJournal = RawJournal(
    title: Option<string>,                          // "dc:title"
    citeScoreYearInfoList: Option<CiteScoreYearInfo>,
    link: Option<seq<Link>>)

  /**
   * The outcome of the lookup request: it failed before a body was read
   * (a non-ok status, a rejected fetch, a body that is not JSON, no
   * `serial-metadata-response` container), or it produced the value of
   * that container's `entry` field.
   */
  datatype Fetch = Failed | Fetched(entry: Option<seq<RawJournal>>)

  datatype SearchError = ProviderError | ShapeError

  datatype CiteScore = NA | Score(value: int)

  datatype Journal = Journal(title: string, citeScore: CiteScore, scopusLink: string)

  // ---------------------------------------------------------------- mapping

  /** `i` is the index `link.find(l => l["@ref"] === "scopus-source")` returns. */
  predicate IsFirstScopus(links: seq<Link>, i: int) {
    && 0 <= i < |links|
    && links[i].refType == Some(ScopusSource)
    && forall k | 0 <= k < i :: links[k].refType != Some(ScopusSource)
  }

  /** `Array.prototype.find` for the Scopus link, as an index. */
  function FindScopus(links: seq<Link>): (r: Option<nat>)
    ensures r.Some? ==> IsFirstScopus(links, r.value)
    ensures r.None? ==> forall k | 0 <= k < |links| :: links[k].refType != Some(ScopusSource)
  {
    if links == [] then None
    else if links[0].refType == Some(ScopusSource) then Some(0)
    else
      match FindScopus(links[1..])
      case None => None
      case Some(i) =>
        assert forall k | 1 <= k < i + 1 :: links[k] == links[1..][k - 1];
        Some(i + 1)
  }

  /** `link.find(...)?.["@href"] || "N/A"`. */
  function ScopusLink(links: seq<Link>): (r: string)
    ensures forall i | IsFirstScopus(links, i) :: r == OrElse(links[i].href, NotAvailable)
    ensures (forall k | 0 <= k < |links| :: links[k].refType != Some(ScopusSource)) ==> r == NotAvailable
  {
    match FindScopus(links)
    case None => NotAvailable
    case Some(i) => OrElse(links[i].href, NotAvailable)
  }

  /** `citeScoreYearInfoList?.citeScoreCurrentMetric || "N/A"`. */
  function MapCiteScore(info: Option<CiteScoreYearInfo>): (c: CiteScore)
    ensures c.NA? <==> info.None? || info.value.currentMetric.None?
    ensures c.Score? ==> c.value == info.value.currentMetric.value
  {
    match info
    case None => NA
    case Some(i) =>
      match i.currentMetric
      case None => NA
      case Some(v) => Score(v)
  }

  /**
   * The `map` callback. Reading `.find` of an undefined `link` throws a
   * TypeError, which ends the whole search.
   */
  function MapJournal(raw: RawJournal): (r: Result<Journal, SearchError>)
    ensures r.Ok? <==> raw.link.Some?
    ensures r.Err? ==> r.error == ShapeError
    ensures r.Ok? && Truthy(raw.title) ==> r.value.title == raw.title.value
    ensures r.Ok? && !Truthy(raw.title) ==> r.value.title == NotAvailable
    ensures r.Ok? ==> r.value.citeScore == MapCiteScore(raw.citeScoreYearInfoList)
    ensures r.Ok? ==> r.value.scopusLink == ScopusLink(raw.link.value)
  {
    match raw.link
    case None => Err(ShapeError)
    case Some(links) =>
      Ok(Journal(OrElse(raw.title, NotAvailable), MapCiteScore(raw.citeScoreYearInfoList), ScopusLink(links)))
  }

  /** `journals.map(...)`: every entry mapped, in order, unless one of them throws. */
  function MapAll(raws: seq<RawJournal>): (r: Result<seq<Journal>, SearchError>)
    ensures r.Ok? <==> forall i | 0 <= i < |raws| :: raws[i].link.Some?
    ensures r.Err? ==> r.error == ShapeError
    ensures r.Ok? ==> |r.value| == |raws| && forall i | 0 <= i < |raws| :: MapJournal(raws[i]) == Ok(r.value[i])
    decreases |raws|
  {
    if raws == [] then Ok([])
    else
      match MapJournal(raws[0])
      case Err(e) => Err(e)
      case Ok(j) =>
        match MapAll(raws[1..])
        case Err(e) => Err(e)
        case Ok(js) =>
          assert forall i | 1 <= i < |raws| :: raws[i] == raws[1..][i - 1];
          Ok([j] + js)
  }

  // ---------------------------------------------------------------- ranking

  /**
   * `a` may stand before `b` in the ranking: the comparator never asks for
   * it to move behind. A missing score stands behind every score; scores
   * stand in non-increasing order.
   */
  predicate Precedes(a: CiteScore, b: CiteScore) {
    b.NA? || (a.Score? && a.value >= b.value)
  }

  predicate Ranked(s: seq<Journal>) {
    forall i, j | 0 <= i < j < |s| :: Precedes(s[i].citeScore, s[j].citeScore)
  }

  /** Ranked says exactly the two things the comparator orders by. */
  lemma RankedMeans(s: seq<Journal>)
    ensures Ranked(s) <==>
      && (forall i, j | 0 <= i < j < |s| && s[i].citeScore.NA? :: s[j].citeScore.NA?)
      && (forall i, j | 0 <= i < j < |s| && s[i].citeScore.Score? && s[j].citeScore.Score? ::
            s[i].citeScore.value >= s[j].citeScore.value)
  {
  }

  /** Places `x` before the first element it may precede, so equal scores keep their order. */
  function Insert(x: Journal, s: seq<Journal>): (r: seq<Journal>)
    requires Ranked(s)
    ensures Ranked(r)
    ensures multiset(r) == multiset(s) + multiset{x}
    ensures |r| == |s| + 1
    decreases |s|
  {
    if s == [] then [x]
    else if Precedes(x.citeScore, s[0].citeScore) then
      assert forall k | 0 <= k < |s| :: Precedes(s[0].citeScore, s[k].citeScore);
      [x] + s
    else
      var rest := Insert(x, s[1..]);
      assert s == [s[0]] + s[1..];
      assert forall k | 0 <= k < |rest| :: Precedes(s[0].citeScore, rest[k].citeScore) by {
        forall k | 0 <= k < |rest| ensures Precedes(s[0].citeScore, rest[k].citeScore) {
          assert rest[k] in multiset(rest);
          if rest[k] != x {
            assert rest[k] in multiset(s[1..]);
            var m :| 0 <= m < |s[1..]| && s[1..][m] == rest[k];
            assert s[m + 1] == rest[k];
          }
        }
      }
      [s[0]] + rest
  }

  /** `sort` with the CiteScore comparator: a ranked permutation of its input. */
  function SortByCiteScore(s: seq<Journal>): (r: seq<Journal>)
    ensures Ranked(r)
    ensures multiset(r) == multiset(s)
    ensures |r| == |s|
    decreases |s|
  {
    if s == [] then []
    else
      assert s == [s[0]] + s[1..];
      Insert(s[0], SortByCiteScore(s[1..]))
  }

  /**
   * A prefix of a ranked list is ranked, draws on the list's elements, and
   * everything it leaves out ranks at or below everything it keeps.
   */
  lemma {:induction false} RankedPrefix(s: seq<Journal>, k: nat)
    requires Ranked(s) && k <= |s|
    ensures Ranked(s[..k])
    ensures multiset(s[..k]) <= multiset(s)
    ensures forall x | x in multiset(s) - multiset(s[..k]) ::
              forall i | 0 <= i < k :: Precedes(s[i].citeScore, x.citeScore)
  {
    assert s == s[..k] + s[k..];
    assert multiset(s) == multiset(s[..k]) + multiset(s[k..]);
    forall x | x in multiset(s) - multiset(s[..k])
      ensures forall i | 0 <= i < k :: Precedes(s[i].citeScore, x.citeScore)
    {
      assert x in multiset(s[k..]);
      var m :| 0 <= m < |s[k..]| && s[k..][m] == x;
      assert s[k + m] == x;
    }
  }

  /** `.sort(...).slice(0, 20)` on the mapped entries. */
  function RankAndLimit(js: seq<Journal>): (r: seq<Journal>)
    ensures |r| == Min(|js|, MaxResults)
    ensures Ranked(r)
    ensures multiset(r) <= multiset(js)
    ensures forall x | x in multiset(js) - multiset(r) ::
              forall i | 0 <= i < |r| :: Precedes(r[i].citeScore, x.citeScore)
  {
    var sorted := SortByCiteScore(js);
    var k := Min(|sorted|, MaxResults);
    RankedPrefix(sorted, k);
    sorted[..k]
  }

  /** The search, given the outcome of the lookup request. */
  function Search(fetch: Fetch): (r: Result<seq<Journal>, SearchError>)
    ensures fetch.Failed? ==> r == Err(ProviderError)
    ensures r.Ok? <==> fetch.Fetched? && fetch.entry.Some? &&
                       forall i | 0 <= i < |fetch.entry.value| :: fetch.entry.value[i].link.Some?
    ensures r.Ok? ==>
      var mapped := MapAll(fetch.entry.value).value;
      && |r.value| == Min(|fetch.entry.value|, MaxResults)
      && Ranked(r.value)
      && multiset(r.value) <= multiset(mapped)
      && forall x | x in multiset(mapped) - multiset(r.value) ::
           forall i | 0 <= i < |r.value| :: Precedes(r.value[i].citeScore, x.citeScore)
  {
    match fetch
    case Failed => Err(ProviderError)
    case Fetched(entry) =>
      match entry
      case None => Err(ShapeError)                   // `undefined.map` throws
      case Some(raws) =>
        match MapAll(raws)
        case Err(e) => Err(e)
        case Ok(js) => Ok(RankAndLimit(js))
  }

  // ------------------------------------------- the ranking is determined by its input

  /** The CiteScores along a list. */
  function Scores(s: seq<Journal>): seq<CiteScore> {
    seq(|s|, i requires 0 <= i < |s| => s[i].citeScore)
  }

  predicate Descending(cs: seq<CiteScore>) {
    forall i, j | 0 <= i < j < |cs| :: Precedes(cs[i], cs[j])
  }

  lemma ScoresConcat(u: seq<Journal>, v: seq<Journal>)
    ensures Scores(u + v) == Scores(u) + Scores(v)
  {
  }

  /** Taking element `j` out of a list takes one occurrence of it out of the list's multiset. */
  lemma RemoveAt(b: seq<Journal>, j: nat)
    requires j < |b|
    ensures multiset(b[..j] + b[j + 1..]) == multiset(b) - multiset{b[j]}
  {
    assert b == b[..j] + [b[j]] + b[j + 1..];
  }

  /** Taking element `j` out of a list takes its score out of the list's scores. */
  lemma ScoresRemoveAt(b: seq<Journal>, j: nat)
    requires j < |b|
    ensures multiset(Scores(b)) == multiset(Scores(b[..j] + b[j + 1..])) + multiset{b[j].citeScore}
  {
    assert b == b[..j] + [b[j]] + b[j + 1..];
    ScoresConcat(b[..j] + [b[j]], b[j + 1..]);
    ScoresConcat(b[..j], [b[j]]);
    ScoresConcat(b[..j], b[j + 1..]);
  }

  lemma ScoresCons(a: seq<Journal>)
    requires a != []
    ensures multiset(Scores(a)) == multiset(Scores(a[1..])) + multiset{a[0].citeScore}
  {
    assert Scores(a) == [a[0].citeScore] + Scores(a[1..]);
  }

  /** Permuting a list permutes its scores. */
  lemma {:induction false} ScoresPermute(a: seq<Journal>, b: seq<Journal>)
    requires multiset(a) == multiset(b)
    ensures multiset(Scores(a)) == multiset(Scores(b))
    decreases |a|
  {
    if a == [] {
      assert |b| == |multiset(b)| == 0;
    } else {
      assert a[0] in multiset(b);
      var j :| 0 <= j < |b| && b[j] == a[0];
      var rest := b[..j] + b[j + 1..];
      RemoveAt(b, j);
      assert multiset(a[1..]) == multiset(rest) by {
        assert a == [a[0]] + a[1..];
      }
      ScoresPermute(a[1..], rest);
      ScoresCons(a);
      ScoresRemoveAt(b, j);
    }
  }

  /** Two descending score lists with the same scores are the same list. */
  lemma {:induction false} DescendingUnique(p: seq<CiteScore>, q: seq<CiteScore>)
    requires multiset(p) == multiset(q)
    requires Descending(p) && Descending(q)
    ensures p == q
    decreases |p|
  {
    assert |p| == |multiset(p)| == |multiset(q)| == |q|;
    if p != [] {
      assert p[0] in multiset(q);
      assert q[0] in multiset(p);
      assert Precedes(q[0], p[0]);
      assert Precedes(p[0], q[0]);
      assert p[0] == q[0];
      assert p == [p[0]] + p[1..];
      assert q == [q[0]] + q[1..];
      assert multiset(p) == multiset{p[0]} + multiset(p[1..]);
      assert multiset(q) == multiset{q[0]} + multiset(q[1..]);
      assert multiset(p[1..]) == multiset(p) - multiset{p[0]};
      assert multiset(q[1..]) == multiset(q) - multiset{q[0]};
      DescendingUnique(p[1..], q[1..]);
    }
  }

  /**
   * The comparator leaves the relative order of entries with equal scores
   * open, but not the scores: every ranked permutation of the same entries
   * carries the same CiteScore at every position.
   */
  lemma RankingsAgree(a: seq<Journal>, b: seq<Journal>)
    requires multiset(a) == multiset(b)
    requires Ranked(a) && Ranked(b)
    ensures |a| == |b|
    ensures forall i | 0 <= i < |a| :: a[i].citeScore == b[i].citeScore
  {
    ScoresPermute(a, b);
    DescendingUnique(Scores(a), Scores(b));
    assert forall i | 0 <= i < |a| :: Scores(a)[i] == a[i].citeScore && Scores(b)[i] == b[i].citeScore;
  }
}
