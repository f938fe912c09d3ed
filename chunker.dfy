/**
 * The greedy line chunker of generate-victoria3-l10n.py (`chunk_text_by_lines`).
 * The text is cut into whole lines; a line joins the chunk being built while
 * cost(chunk) + cost(line) stays within the budget, and otherwise starts the
 * next chunk. The first line of a chunk is always taken, whatever its cost.
 * The tokenizer is an arbitrary cost function on strings.
 */
module Chunker {
  import opened Text

  /** All groups laid end to end. */
  function Flatten(gs: seq<seq<string>>): seq<string> {
    if gs == [] then [] else gs[0] + Flatten(gs[1..])
  }

  /** Each group of lines concatenated into one chunk string. */
  function ConcatEach(gs: seq<seq<string>>): (r: seq<string>)
    ensures |r| == |gs|
    ensures forall i :: 0 <= i < |gs| ==> r[i] == Concat(gs[i])
  {
    seq(|gs|, i requires 0 <= i < |gs| => Concat(gs[i]))
  }

  /**
   * The greedy packing of `lines`, given that `cur` holds the lines of the
   * chunk being built.
   */
  function Pack(lines: seq<string>, maxTokens: int, cost: string -> nat, cur: seq<string>): seq<seq<string>>
    decreases |lines|
  {
    if lines == [] then
      (if cur == [] then [] else [cur])
    else if cost(Concat(cur)) + cost(lines[0]) > maxTokens && cur != [] then
      [cur] + Pack(lines[1..], maxTokens, cost, [lines[0]])
    else
      Pack(lines[1..], maxTokens, cost, cur + [lines[0]])
  }

  /** The chunks of `text`, each given as its lines. */
  function ChunkLines(text: string, maxTokens: int, cost: string -> nat): seq<seq<string>> {
    Pack(SplitLinesKeepEnds(text), maxTokens, cost, [])
  }

  /** The chunk strings `chunk_text_by_lines` returns. */
  function Chunks(text: string, maxTokens: int, cost: string -> nat): seq<string> {
    ConcatEach(ChunkLines(text, maxTokens, cost))
  }

  /** Every line after the first was admitted because it fit the budget. */
  predicate WithinBudget(g: seq<string>, maxTokens: int, cost: string -> nat) {
    forall k :: 1 <= k < |g| ==> cost(Concat(g[..k])) + cost(g[k]) <= maxTokens
  }

  /** No chunk is empty. */
  predicate AllNonEmpty(gs: seq<seq<string>>) {
    forall i :: 0 <= i < |gs| ==> gs[i] != []
  }

  predicate AllWithinBudget(gs: seq<seq<string>>, maxTokens: int, cost: string -> nat) {
    forall i :: 0 <= i < |gs| ==> WithinBudget(gs[i], maxTokens, cost)
  }

  /** Each chunk after the first starts with a line that did not fit into the chunk before it. */
  predicate BreaksForced(gs: seq<seq<string>>, maxTokens: int, cost: string -> nat) {
    forall i :: 1 <= i < |gs| ==> gs[i] != [] && cost(Concat(gs[i - 1])) + cost(gs[i][0]) > maxTokens
  }

  /** Every string but the last ends with a line break. */
  predicate AllButLastEndLine(ls: seq<string>) {
    forall j :: 0 <= j < |ls| - 1 ==> EndsLine(ls[j])
  }

  /** Every chunk but the last ends with a line that ends with a line break. */
  predicate EndsOnLines(gs: seq<seq<string>>) {
    forall i :: 0 <= i < |gs| - 1 ==> gs[i] != [] && EndsLine(gs[i][|gs[i]| - 1])
  }

  /** The greedy packing loses no line and reorders none. */
  lemma {:induction false} PackFlatten(lines: seq<string>, maxTokens: int, cost: string -> nat, cur: seq<string>)
    ensures Flatten(Pack(lines, maxTokens, cost, cur)) == cur + lines
    decreases |lines|
  {
    if lines == [] {
      if cur != [] {
        assert Flatten([cur]) == cur + Flatten([]);
      }
    } else {
      var l := lines[0];
      assert lines == [l] + lines[1..];
      if cost(Concat(cur)) + cost(l) > maxTokens && cur != [] {
        PackFlatten(lines[1..], maxTokens, cost, [l]);
        var rest := Pack(lines[1..], maxTokens, cost, [l]);
        assert ([cur] + rest)[1..] == rest;
      } else {
        PackFlatten(lines[1..], maxTokens, cost, cur + [l]);
      }
    }
  }

  /** No chunk is empty. */
  lemma {:induction false} PackNonEmpty(lines: seq<string>, maxTokens: int, cost: string -> nat, cur: seq<string>)
    ensures AllNonEmpty(Pack(lines, maxTokens, cost, cur))
    decreases |lines|
  {
    if lines != [] {
      var l := lines[0];
      if cost(Concat(cur)) + cost(l) > maxTokens && cur != [] {
        PackNonEmpty(lines[1..], maxTokens, cost, [l]);
        var rest := Pack(lines[1..], maxTokens, cost, [l]);
        assert forall i :: 1 <= i < |rest| + 1 ==> ([cur] + rest)[i] == rest[i - 1];
      } else {
        PackNonEmpty(lines[1..], maxTokens, cost, cur + [l]);
      }
    }
  }

  /** The first chunk starts with the first pending line. */
  lemma {:induction false} PackFirst(lines: seq<string>, maxTokens: int, cost: string -> nat, cur: seq<string>)
    requires cur + lines != []
    ensures Pack(lines, maxTokens, cost, cur) != []
    ensures Pack(lines, maxTokens, cost, cur)[0] != []
    ensures Pack(lines, maxTokens, cost, cur)[0][0] == (cur + lines)[0]
    decreases |lines|
  {
    if lines != [] {
      var l := lines[0];
      if cost(Concat(cur)) + cost(l) > maxTokens && cur != [] {
      } else {
        PackFirst(lines[1..], maxTokens, cost, cur + [l]);
        assert (cur + [l] + lines[1..])[0] == (cur + lines)[0];
      }
    }
  }

  /** Every line after the first of a chunk was admitted within the budget. */
  lemma {:induction false} PackWithinBudget(lines: seq<string>, maxTokens: int, cost: string -> nat, cur: seq<string>)
    requires WithinBudget(cur, maxTokens, cost)
    ensures AllWithinBudget(Pack(lines, maxTokens, cost, cur), maxTokens, cost)
    decreases |lines|
  {
    if lines != [] {
      var l := lines[0];
      if cost(Concat(cur)) + cost(l) > maxTokens && cur != [] {
        PackWithinBudget(lines[1..], maxTokens, cost, [l]);
        var rest := Pack(lines[1..], maxTokens, cost, [l]);
        assert forall i :: 1 <= i < |rest| + 1 ==> ([cur] + rest)[i] == rest[i - 1];
      } else {
        var next := cur + [l];
        forall k | 1 <= k < |next| ensures cost(Concat(next[..k])) + cost(next[k]) <= maxTokens {
          if k < |cur| {
            assert next[..k] == cur[..k];
          } else {
            assert next[..k] == cur;
          }
        }
        PackWithinBudget(lines[1..], maxTokens, cost, next);
      }
    }
  }

  /** Every break was forced: the next chunk's first line did not fit. */
  lemma {:induction false} PackBreaksForced(lines: seq<string>, maxTokens: int, cost: string -> nat, cur: seq<string>)
    ensures BreaksForced(Pack(lines, maxTokens, cost, cur), maxTokens, cost)
    decreases |lines|
  {
    if lines != [] {
      var l := lines[0];
      if cost(Concat(cur)) + cost(l) > maxTokens && cur != [] {
        var rest := Pack(lines[1..], maxTokens, cost, [l]);
        var gs := [cur] + rest;
        PackBreaksForced(lines[1..], maxTokens, cost, [l]);
        PackFirst(lines[1..], maxTokens, cost, [l]);
        forall i | 1 <= i < |gs| ensures gs[i] != [] && cost(Concat(gs[i - 1])) + cost(gs[i][0]) > maxTokens {
          assert gs[i] == rest[i - 1];
          if i > 1 {
            assert gs[i - 1] == rest[i - 2];
          }
        }
      } else {
        PackBreaksForced(lines[1..], maxTokens, cost, cur + [l]);
      }
    }
  }

  /** A chunk other than the last ends where a line of the text ends. */
  lemma {:induction false} PackEndsOnLines(lines: seq<string>, maxTokens: int, cost: string -> nat, cur: seq<string>)
    requires AllButLastEndLine(cur + lines)
    ensures EndsOnLines(Pack(lines, maxTokens, cost, cur))
    decreases |lines|
  {
    if lines != [] {
      var l := lines[0];
      if cost(Concat(cur)) + cost(l) > maxTokens && cur != [] {
        var rest := Pack(lines[1..], maxTokens, cost, [l]);
        var gs := [cur] + rest;
        assert [l] + lines[1..] == lines;
        assert forall j :: 0 <= j < |lines| ==> lines[j] == (cur + lines)[|cur| + j];
        PackEndsOnLines(lines[1..], maxTokens, cost, [l]);
        assert cur[|cur| - 1] == (cur + lines)[|cur| - 1];
        forall i | 0 <= i < |gs| - 1 ensures gs[i] != [] && EndsLine(gs[i][|gs[i]| - 1]) {
          if i > 0 {
            assert gs[i] == rest[i - 1];
          }
        }
      } else {
        assert cur + [l] + lines[1..] == cur + lines;
        PackEndsOnLines(lines[1..], maxTokens, cost, cur + [l]);
      }
    }
  }

  lemma ConcatEachSnoc(gs: seq<seq<string>>, g: seq<string>)
    ensures ConcatEach(gs + [g]) == ConcatEach(gs) + [Concat(g)]
  {
  }

  lemma {:induction false} FlattenConcat(gs: seq<seq<string>>)
    ensures Concat(ConcatEach(gs)) == Concat(Flatten(gs))
  {
    if gs != [] {
      FlattenConcat(gs[1..]);
      assert ConcatEach(gs) == [Concat(gs[0])] + ConcatEach(gs[1..]);
      ConcatAppend(gs[0], Flatten(gs[1..]));
    }
  }

  /** Concatenating the chunks gives back the text exactly. */
  lemma ChunksConcat(text: string, maxTokens: int, cost: string -> nat)
    ensures Concat(Chunks(text, maxTokens, cost)) == text
    ensures Flatten(ChunkLines(text, maxTokens, cost)) == SplitLinesKeepEnds(text)
  {
    var lines := SplitLinesKeepEnds(text);
    PackFlatten(lines, maxTokens, cost, []);
    assert [] + lines == lines;
    FlattenConcat(ChunkLines(text, maxTokens, cost));
  }

  /** Every chunk is a non-empty string, and only the empty text has no chunks. */
  lemma ChunksNonEmpty(text: string, maxTokens: int, cost: string -> nat)
    ensures forall i :: 0 <= i < |Chunks(text, maxTokens, cost)| ==> Chunks(text, maxTokens, cost)[i] != ""
    ensures (Chunks(text, maxTokens, cost) == []) == (text == "")
  {
    var lines := SplitLinesKeepEnds(text);
    var gs := ChunkLines(text, maxTokens, cost);
    PackNonEmpty(lines, maxTokens, cost, []);
    forall i | 0 <= i < |gs| ensures Concat(gs[i]) != "" {
      assert gs[i][0] in Flatten(gs) by {
        FlattenMember(gs, i, 0);
      }
      ChunksConcat(text, maxTokens, cost);
      assert IsLine(gs[i][0]);
      assert Concat(gs[i]) == gs[i][0] + Concat(gs[i][1..]);
    }
    ChunksConcat(text, maxTokens, cost);
  }

  lemma {:induction false} FlattenMember(gs: seq<seq<string>>, i: nat, k: nat)
    requires i < |gs| && k < |gs[i]|
    ensures gs[i][k] in Flatten(gs)
  {
    if i > 0 {
      FlattenMember(gs[1..], i - 1, k);
    }
  }

  /** Each line after the first of a chunk fit the budget when it was added. */
  lemma ChunksWithinBudget(text: string, maxTokens: int, cost: string -> nat)
    ensures AllWithinBudget(ChunkLines(text, maxTokens, cost), maxTokens, cost)
  {
    PackWithinBudget(SplitLinesKeepEnds(text), maxTokens, cost, []);
  }

  /** A chunk followed by another could not take the next chunk's first line. */
  lemma ChunkBreaksForced(text: string, maxTokens: int, cost: string -> nat)
    ensures BreaksForced(ChunkLines(text, maxTokens, cost), maxTokens, cost)
  {
    PackBreaksForced(SplitLinesKeepEnds(text), maxTokens, cost, []);
  }

  /** Every chunk but the last ends with a line break. */
  lemma ChunksEndWithNewline(text: string, maxTokens: int, cost: string -> nat)
    ensures AllButLastEndLine(Chunks(text, maxTokens, cost))
  {
    var lines := SplitLinesKeepEnds(text);
    var gs := ChunkLines(text, maxTokens, cost);
    assert [] + lines == lines;
    PackEndsOnLines(lines, maxTokens, cost, []);
    assert AllButLastEndLine([] + lines);
    forall i | 0 <= i < |gs| - 1 ensures EndsLine(Concat(gs[i])) {
      EndsLineConcat(gs[i]);
    }
  }

  lemma {:induction false} EndsLineConcat(g: seq<string>)
    requires g != [] && EndsLine(g[|g| - 1])
    ensures EndsLine(Concat(g))
  {
    assert g == g[..|g| - 1] + [g[|g| - 1]];
    ConcatSnoc(g[..|g| - 1], g[|g| - 1]);
  }

  /**
   * A chunk of two or more lines holds no line that alone costs more than
   * the budget: such a line forms a chunk of its own.
   */
  lemma OversizedLineAlone(text: string, maxTokens: int, cost: string -> nat, i: nat)
    requires i < |ChunkLines(text, maxTokens, cost)|
    requires |ChunkLines(text, maxTokens, cost)[i]| > 1
    ensures forall k :: 0 <= k < |ChunkLines(text, maxTokens, cost)[i]| ==>
              cost(ChunkLines(text, maxTokens, cost)[i][k]) <= maxTokens
  {
    var g := ChunkLines(text, maxTokens, cost)[i];
    ChunksWithinBudget(text, maxTokens, cost);
    assert WithinBudget(g, maxTokens, cost);
    assert g[..1] == [g[0]];
    assert Concat([g[0]]) == g[0] + Concat([]);
    assert Concat(g[..1]) == g[0];
    assert cost(Concat(g[..1])) + cost(g[1]) <= maxTokens;
    forall k | 0 <= k < |g| ensures cost(g[k]) <= maxTokens {
      if k >= 1 {
        assert cost(Concat(g[..k])) + cost(g[k]) <= maxTokens;
      }
    }
  }

  /**
   * When the tokenizer never charges more for a concatenation than for its
   * parts, every chunk of two or more lines costs at most the budget.
   */
  lemma ChunkCostBounded(text: string, maxTokens: int, cost: string -> nat, i: nat)
    requires forall a: string, b: string :: cost(a + b) <= cost(a) + cost(b)
    requires i < |ChunkLines(text, maxTokens, cost)|
    requires |ChunkLines(text, maxTokens, cost)[i]| >= 2
    ensures cost(Chunks(text, maxTokens, cost)[i]) <= maxTokens
  {
    var g := ChunkLines(text, maxTokens, cost)[i];
    ChunksWithinBudget(text, maxTokens, cost);
    var n := |g| - 1;
    assert cost(Concat(g[..n])) + cost(g[n]) <= maxTokens;
    assert g == g[..n] + [g[n]];
    ConcatSnoc(g[..n], g[n]);
    assert cost(Concat(g[..n]) + g[n]) <= cost(Concat(g[..n])) + cost(g[n]);
  }

  /**
   * `chunk_text_by_lines`: one pass over the lines, closing the chunk being
   * built whenever the next line does not fit.
   */
  method ChunkTextByLines(text: string, maxTokens: int, cost: string -> nat) returns (chunks: seq<string>)
    ensures chunks == Chunks(text, maxTokens, cost)
    ensures Concat(chunks) == text
    ensures (chunks == []) == (text == "")
    ensures forall i :: 0 <= i < |chunks| ==> chunks[i] != ""
    ensures AllButLastEndLine(chunks)
  {
    var lines := SplitLinesKeepEnds(text);
    chunks := [];
    var current := "";
    ghost var groups: seq<seq<string>> := [];
    ghost var cur: seq<string> := [];
    for i := 0 to |lines|
      invariant current == Concat(cur)
      invariant (current == "") == (cur == [])
      invariant chunks == ConcatEach(groups)
      invariant groups + Pack(lines[i..], maxTokens, cost, cur) == Pack(lines, maxTokens, cost, [])
    {
      var line := lines[i];
      var currentTokens := cost(current);
      var lineTokens := cost(line);
      assert lines[i..] == [line] + lines[i + 1..];
      assert IsLine(line);
      if currentTokens + lineTokens > maxTokens && current != "" {
        assert Pack(lines[i..], maxTokens, cost, cur) == [cur] + Pack(lines[i + 1..], maxTokens, cost, [line]);
        assert groups + Pack(lines[i..], maxTokens, cost, cur) == (groups + [cur]) + Pack(lines[i + 1..], maxTokens, cost, [line]);
        ConcatEachSnoc(groups, cur);
        chunks := chunks + [current];
        groups := groups + [cur];
        current := line;
        cur := [line];
        assert Concat([line]) == line + Concat([]);
      } else {
        assert Pack(lines[i..], maxTokens, cost, cur) == Pack(lines[i + 1..], maxTokens, cost, cur + [line]);
        ConcatSnoc(cur, line);
        current := current + line;
        cur := cur + [line];
      }
    }
    if current != "" {
      ConcatEachSnoc(groups, cur);
      chunks := chunks + [current];
      groups := groups + [cur];
    }
    assert groups == Pack(lines, maxTokens, cost, []);
    ChunksConcat(text, maxTokens, cost);
    ChunksNonEmpty(text, maxTokens, cost);
    ChunksEndWithNewline(text, maxTokens, cost);
  }
}
