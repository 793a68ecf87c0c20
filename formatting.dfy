/**
 * The reply text built from a ranked result list: a header line, one
 * numbered block per journal, and the fixed-size slicing of that text into
 * messages of at most 4096 characters (UTF-16 code units in the source).
 */
module Formatting {
  import opened JsValues
  import opened Ranking

  const MaxMessageLength := 4096

  /** `${journal.citeScore}`: the score's text, or "N/A". */
  function ScoreText(c: CiteScore): string {
    match c
    case NA => NotAvailable
    case Score(v) => IntText(v)
  }

  /** `Top ${n} journals matching "${query}":` followed by a blank line. */
  function Header(query: Option<string>, count: nat): string {
    "Top " + NatText(count) + " journals matching \"" + Interpolate(query) + "\":\n\n"
  }

  /** The title line of the journal at 0-based position `k`. */
  function TitleLine(k: nat, j: Journal): string {
    NatText(k + 1) + ". " + j.title + "\n"
  }

  function CiteScoreLine(j: Journal): string {
    "   CiteScore: " + ScoreText(j.citeScore) + "\n"
  }

  /** The Scopus line, followed by the blank line that separates blocks. */
  function ScopusLine(j: Journal): string {
    "   Scopus: " + j.scopusLink + "\n\n"
  }

  /** The three lines and the blank line one journal contributes. */
  function Block(k: nat, j: Journal): string {
    TitleLine(k, j) + CiteScoreLine(j) + ScopusLine(j)
  }

  /** The blocks of all journals, in list order. */
  function Blocks(js: seq<Journal>): string
    decreases |js|
  {
    if js == [] then "" else Blocks(js[..|js| - 1]) + Block(|js| - 1, js[|js| - 1])
  }

  /** The whole reply text for a non-empty result list. */
  function Body(query: Option<string>, js: seq<Journal>): string {
    Header(query, |js|) + Blocks(js)
  }

  lemma AppendAssoc(a: string, b: string, c: string)
    ensures (a + b) + c == a + (b + c)
  {
  }

  lemma AppendThree(b: string, t: string, c: string, x: string)
    ensures b + t + c + x == b + (t + c + x)
  {
  }

  /** The `+=` loop over `journals.forEach` that builds the reply text. */
  method BuildBody(query: Option<string>, journals: seq<Journal>) returns (body: string)
    ensures body == Body(query, journals)
  {
    body := Header(query, |journals|);
    var index := 0;
    while index < |journals|
      invariant 0 <= index <= |journals|
      invariant body == Header(query, |journals|) + Blocks(journals[..index])
    {
      var journal := journals[index];
      ghost var before := body;
      assert journals[..index + 1][..index] == journals[..index];
      assert Blocks(journals[..index + 1]) == Blocks(journals[..index]) + Block(index, journal);
      body := body + (NatText(index + 1) + ". " + journal.title + "\n");
      body := body + ("   CiteScore: " + ScoreText(journal.citeScore) + "\n");
      body := body + ("   Scopus: " + journal.scopusLink + "\n\n");
      AppendThree(before, TitleLine(index, journal), CiteScoreLine(journal), ScopusLine(journal));
      AppendAssoc(Header(query, |journals|), Blocks(journals[..index]), Block(index, journal));
      index := index + 1;
    }
    assert journals[..index] == journals;
  }

  /** The blocks of a prefix of the list are a prefix of the blocks of the list. */
  lemma {:induction false} BlocksPrefix(js: seq<Journal>, m: nat)
    requires m <= |js|
    ensures Blocks(js[..m]) <= Blocks(js)
    decreases |js|
  {
    if m < |js| {
      var init := js[..|js| - 1];
      assert init[..m] == js[..m];
      BlocksPrefix(init, m);
    } else {
      assert js[..m] == js;
    }
  }

  /**
   * The reply text opens with the header, and the journal at position `k`
   * contributes the line `k+1. title` right after the blocks of the
   * journals before it.
   */
  lemma TitleLineAt(query: Option<string>, js: seq<Journal>, k: nat)
    requires k < |js|
    ensures Header(query, |js|) <= Body(query, js)
    ensures Header(query, |js|) + Blocks(js[..k]) + TitleLine(k, js[k]) <= Body(query, js)
  {
    var line := TitleLine(k, js[k]);
    assert js[..k + 1][..k] == js[..k];
    assert Blocks(js[..k + 1]) == Blocks(js[..k]) + Block(k, js[k]);
    AppendAssoc(line, CiteScoreLine(js[k]), ScopusLine(js[k]));
    BlocksPrefix(js, k + 1);
    PieceAt(Header(query, |js|), Blocks(js[..k]), line, CiteScoreLine(js[k]) + ScopusLine(js[k]), Blocks(js));
  }

  /** A piece of a prefix of `v` stays in place when `head` is put in front. */
  lemma PieceAt(head: string, earlier: string, line: string, after: string, v: string)
    requires earlier + (line + after) <= v
    ensures head <= head + v
    ensures head + earlier + line <= head + v
  {
    var n := |head| + |earlier| + |line|;
    assert (head + v)[..|head|] == head;
    assert v[..|earlier| + |line|] == (earlier + (line + after))[..|earlier| + |line|] == earlier + line;
    assert (head + v)[..n] == head + earlier + line;
  }

  // ---------------------------------------------------------------- chunking

  /** Joins the chunks back together. */
  function Concat(parts: seq<string>): string
    decreases |parts|
  {
    if parts == [] then "" else parts[0] + Concat(parts[1..])
  }

  /** ceil(n / 4096). */
  function ChunkCount(n: nat): nat {
    (n + MaxMessageLength - 1) / MaxMessageLength
  }

  /**
   * The slices `text.slice(i, i + 4096)` for i = 0, 4096, 8192, ... while
   * i < |text|: the order is kept, nothing is dropped, every chunk holds
   * between 1 and 4096 characters and every chunk but the last exactly 4096.
   */
  function ChunksOf(text: string): (r: seq<string>)
    ensures |r| == ChunkCount(|text|)
    ensures forall k | 0 <= k < |r| :: 1 <= |r[k]| <= MaxMessageLength
    ensures forall k | 0 <= k < |r| - 1 :: |r[k]| == MaxMessageLength
    decreases |text|
  {
    if |text| == 0 then []
    else if |text| <= MaxMessageLength then [text]
    else
      [text[..MaxMessageLength]] + ChunksOf(text[MaxMessageLength..])
  }

  /** The chunks put back together are the text: slicing drops and reorders nothing. */
  lemma {:induction false} ChunksRebuild(text: string)
    ensures Concat(ChunksOf(text)) == text
    decreases |text|
  {
    if |text| > MaxMessageLength {
      var rest := text[MaxMessageLength..];
      ChunksRebuild(rest);
      assert ChunksOf(text)[1..] == ChunksOf(rest);
      assert text == text[..MaxMessageLength] + rest;
    }
  }

  /** Chunk `k` is the slice the loop takes when its index is 4096 * k. */
  lemma {:induction false} ChunkAt(text: string, k: nat)
    requires k < |ChunksOf(text)|
    ensures MaxMessageLength * k < |text|
    ensures ChunksOf(text)[k] == text[MaxMessageLength * k .. Min(MaxMessageLength * (k + 1), |text|)]
    decreases k
  {
    if k > 0 {
      var tail := text[MaxMessageLength..];
      assert ChunksOf(text)[k] == ChunksOf(tail)[k - 1];
      ChunkAt(tail, k - 1);
      assert Min(MaxMessageLength * k, |tail|) == Min(MaxMessageLength * (k + 1), |text|) - MaxMessageLength;
      SliceOfDrop(text, MaxMessageLength, MaxMessageLength * k, Min(MaxMessageLength * (k + 1), |text|));
    }
  }

  /** Slicing after dropping the first `d` elements is slicing shifted by `d`. */
  lemma SliceOfDrop(s: string, d: nat, lo: nat, hi: nat)
    requires d <= lo <= hi <= |s|
    ensures s[d..][lo - d..hi - d] == s[lo..hi]
  {
  }

  /** The loop index 4096 * k is still inside the text exactly while chunks remain. */
  lemma ChunkIndexInRange(n: nat, k: nat)
    ensures MaxMessageLength * k < n <==> k < ChunkCount(n)
  {
  }
}
