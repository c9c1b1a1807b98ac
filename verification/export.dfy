/**
  The chunk transform of the exporter: drop every thought and every chunk
  whose text is exactly the empty string, keep the remaining texts in
  chunk order and verbatim, and join them with the fixed separator.
 */
module Transform {
  import opened Model
  import Join

  /** The fixed separator: newline, three hyphens, newline. */
  const Separator: string := "\n---\n"

  /**
    Whether a chunk contributes to any output. Only the exact empty string
    is dropped: whitespace-only text survives.
   */
  predicate Survives(c: Chunk)
  {
    !c.isThought && c.text != ""
  }

  /** The surviving texts, in chunk order (the list the transform joins). */
  function Texts(chunks: seq<Chunk>): (r: seq<string>)
    ensures |r| <= |chunks|
    ensures forall k :: 0 <= k < |r| ==> r[k] != ""
  {
    if |chunks| == 0 then []
    else
      var last := chunks[|chunks| - 1];
      Texts(chunks[..|chunks| - 1]) + (if Survives(last) then [last.text] else [])
  }

  /** The positions of the surviving chunks, in increasing order. */
  function SurvivorIndices(chunks: seq<Chunk>): (r: seq<nat>)
    ensures forall k :: 0 <= k < |r| ==> r[k] < |chunks| && Survives(chunks[r[k]])
    ensures forall k, l :: 0 <= k < l < |r| ==> r[k] < r[l]
    ensures forall i :: 0 <= i < |chunks| && Survives(chunks[i]) ==> i in r
  {
    if |chunks| == 0 then []
    else
      var n := |chunks| - 1;
      SurvivorIndices(chunks[..n]) + (if Survives(chunks[n]) then [n] else [])
  }

  /**
    The transform's list is exactly the texts of the surviving chunks,
    read at their positions in increasing order: nothing reordered, nothing
    altered, nothing added, nothing from a dropped chunk.
   */
  lemma {:induction false} TextsAreSurvivorTexts(chunks: seq<Chunk>)
    ensures |Texts(chunks)| == |SurvivorIndices(chunks)|
    ensures forall k :: 0 <= k < |Texts(chunks)| ==>
      Texts(chunks)[k] == chunks[SurvivorIndices(chunks)[k]].text
  {
    if |chunks| > 0 {
      var n := |chunks| - 1;
      var prefix := chunks[..n];
      TextsAreSurvivorTexts(prefix);
      forall k | 0 <= k < |SurvivorIndices(prefix)|
        ensures chunks[SurvivorIndices(prefix)[k]] == prefix[SurvivorIndices(prefix)[k]]
      {
      }
    }
  }

  /** A text is in the list iff some surviving chunk carries it. */
  lemma {:induction false} TextsMembership(chunks: seq<Chunk>, t: string)
    ensures t in Texts(chunks) <==> exists i :: 0 <= i < |chunks| && Survives(chunks[i]) && chunks[i].text == t
  {
    TextsAreSurvivorTexts(chunks);
    var idx := SurvivorIndices(chunks);
    if t in Texts(chunks) {
      var k :| 0 <= k < |Texts(chunks)| && Texts(chunks)[k] == t;
      assert Survives(chunks[idx[k]]) && chunks[idx[k]].text == t;
    }
    if exists i :: 0 <= i < |chunks| && Survives(chunks[i]) && chunks[i].text == t {
      var i :| 0 <= i < |chunks| && Survives(chunks[i]) && chunks[i].text == t;
      var k :| 0 <= k < |idx| && idx[k] == i;
      assert Texts(chunks)[k] == t;
    }
  }

  /**
    Inclusion is decided chunk by chunk: the list for a concatenation is
    the concatenation of the lists.
   */
  lemma {:induction false} TextsAppend(a: seq<Chunk>, b: seq<Chunk>)
    ensures Texts(a + b) == Texts(a) + Texts(b)
  {
    if |b| == 0 {
      assert a + b == a;
    } else {
      var n := |b| - 1;
      assert (a + b)[..|a + b| - 1] == a + b[..n];
      assert (a + b)[|a + b| - 1] == b[n];
      TextsAppend(a, b[..n]);
    }
  }

  /** A single chunk contributes its text verbatim if it survives, and nothing otherwise. */
  lemma {:induction false} TextsSingleton(c: Chunk)
    ensures Texts([c]) == if Survives(c) then [c.text] else []
  {
  }

  /** No surviving chunk at all is the same as an empty list. */
  lemma {:induction false} TextsEmptyIff(chunks: seq<Chunk>)
    ensures Texts(chunks) == [] <==> forall i :: 0 <= i < |chunks| ==> !Survives(chunks[i])
  {
    TextsAreSurvivorTexts(chunks);
    var idx := SurvivorIndices(chunks);
    if exists i :: 0 <= i < |chunks| && Survives(chunks[i]) {
      var i :| 0 <= i < |chunks| && Survives(chunks[i]);
      assert i in idx;
    }
    if Texts(chunks) != [] {
      assert Survives(chunks[idx[0]]);
    }
  }

  /**
    The transform itself: the surviving texts joined with the separator.
    No survivors give the empty string, one survivor gives its text with no
    separator, and n survivors give their lengths plus n - 1 separators.
   */
  function ProcessChunks(root: Root): (r: string)
    ensures Texts(root.chunkedPrompt.chunks) == [] ==> r == ""
    ensures |Texts(root.chunkedPrompt.chunks)| == 1 ==> r == Texts(root.chunkedPrompt.chunks)[0]
    ensures var n := |Texts(root.chunkedPrompt.chunks)|;
      n > 0 ==> |r| == Join.TotalLength(Texts(root.chunkedPrompt.chunks)) + |Separator| * (n - 1)
  {
    Join.Join(Texts(root.chunkedPrompt.chunks), Separator)
  }

  /** The output is empty exactly when no chunk survives. */
  lemma {:induction false} ProcessChunksEmptyIff(root: Root)
    ensures ProcessChunks(root) == "" <==>
      forall i :: 0 <= i < |root.chunkedPrompt.chunks| ==> !Survives(root.chunkedPrompt.chunks[i])
  {
    TextsEmptyIff(root.chunkedPrompt.chunks);
  }

  /**
    Where each surviving text lands in the output: the k-th survivor sits
    at `Offset(k)` verbatim, and exactly one separator lies between
    consecutive survivors.
   */
  lemma {:induction false} ProcessChunksLayout(root: Root)
    requires Texts(root.chunkedPrompt.chunks) != []
    ensures var ts := Texts(root.chunkedPrompt.chunks);
      |ProcessChunks(root)| == Join.Offset(ts, Separator, |ts| - 1) + |ts[|ts| - 1]|
    ensures var ts := Texts(root.chunkedPrompt.chunks);
      forall k :: 0 <= k < |ts| ==> Join.PartAt(ProcessChunks(root), ts, Separator, k)
    ensures var ts := Texts(root.chunkedPrompt.chunks);
      forall k :: 0 <= k < |ts| - 1 ==> Join.SepAfter(ProcessChunks(root), ts, Separator, k)
  {
    Join.JoinLayout(Texts(root.chunkedPrompt.chunks), Separator);
  }

  /** A thought or an empty-text chunk, wherever it stands, leaves the output unchanged. */
  lemma {:induction false} DroppedChunkIgnored(a: seq<Chunk>, c: Chunk, b: seq<Chunk>)
    requires !Survives(c)
    ensures ProcessChunks(RootOf(a + [c] + b)) == ProcessChunks(RootOf(a + b))
  {
    TextsAppend(a + [c], b);
    TextsAppend(a, [c]);
    TextsSingleton(c);
    TextsAppend(a, b);
    assert Texts(a + [c] + b) == Texts(a + b);
  }

  /** A surviving chunk contributes its own text, verbatim, between its neighbours' texts. */
  lemma {:induction false} SurvivorContributes(a: seq<Chunk>, c: Chunk, b: seq<Chunk>)
    requires Survives(c)
    ensures Texts(a + [c] + b) == Texts(a) + [c.text] + Texts(b)
  {
    TextsAppend(a + [c], b);
    TextsAppend(a, [c]);
    TextsSingleton(c);
  }

  /**
    The output for two chunk lists one after the other: the two outputs
    with one separator between them, or just one of them when the other
    list has no survivor.
   */
  lemma {:induction false} ProcessChunksConcat(a: seq<Chunk>, b: seq<Chunk>)
    ensures ProcessChunks(RootOf(a + b)) ==
      if Texts(a) == [] then ProcessChunks(RootOf(b))
      else if Texts(b) == [] then ProcessChunks(RootOf(a))
      else ProcessChunks(RootOf(a)) + Separator + ProcessChunks(RootOf(b))
  {
    TextsAppend(a, b);
    if Texts(a) != [] && Texts(b) != [] {
      Join.JoinAppend(Texts(a), Texts(b), Separator);
    } else {
      assert Texts(a) == [] ==> Texts(a) + Texts(b) == Texts(b);
      assert Texts(b) == [] ==> Texts(a) + Texts(b) == Texts(a);
    }
  }

  /**
    Chunks that alternate thought, visible, thought, visible, ..., all with
    non-empty text, keep exactly the visible half: 1000 such chunks give 500.
   */
  lemma {:induction false} AlternatingKeepsHalf(chunks: seq<Chunk>)
    requires forall i :: 0 <= i < |chunks| ==> chunks[i].isThought == (i % 2 == 0)
    requires forall i :: 0 <= i < |chunks| ==> chunks[i].text != ""
    ensures |Texts(chunks)| == |chunks| / 2
  {
    if |chunks| > 0 {
      AlternatingKeepsHalf(chunks[..|chunks| - 1]);
    }
  }

  /**
    The loop of the exporter, branch for branch: a thought is skipped, and
    otherwise the text is appended when it is not the empty string. Its
    result is the list `Texts` defines.
   */
  method CollectTexts(chunks: seq<Chunk>) returns (texts: seq<string>)
    ensures texts == Texts(chunks)
    ensures forall k :: 0 <= k < |texts| ==> texts[k] != ""
  {
    texts := [];
    var i := 0;
    while i < |chunks|
      invariant 0 <= i <= |chunks|
      invariant texts == Texts(chunks[..i])
    {
      var chunk := chunks[i];
      assert chunks[..i + 1][..i] == chunks[..i];
      if chunk.isThought {
        i := i + 1;
        continue;
      }
      if chunk.text != "" {
        texts := texts + [chunk.text];
      }
      i := i + 1;
    }
    assert chunks[..i] == chunks;
  }
}
