/**
  The exporter's own test cases, stated as facts about the model.
 */
module Scenarios {
  import opened Model
  import opened Transform
  import Join

  lemma RegularChunks()
    ensures ProcessChunks(RootOf([Chunk("Hello", false), Chunk("How are you?", false)]))
         == "Hello\n---\nHow are you?"
  {
  }

  lemma ThoughtIgnored()
    ensures ProcessChunks(RootOf([Chunk("Thought", true), Chunk("Answer", false)])) == "Answer"
  {
  }

  lemma EmptyTextDropped()
    ensures ProcessChunks(RootOf([Chunk("", false), Chunk("Text", false)])) == "Text"
  {
  }

  lemma AllThoughtsGiveEmpty()
    ensures ProcessChunks(RootOf([Chunk("Thought 1", true), Chunk("Thought 2", true)])) == ""
  {
  }

  /** The text writer's case: a thought between two lines. */
  lemma ThoughtBetweenLines()
    ensures ProcessChunks(RootOf([Chunk("Line 1", false), Chunk("Thought", true), Chunk("Line 2", false)]))
         == "Line 1\n---\nLine 2"
  {
    var line1, thought, line2 := Chunk("Line 1", false), Chunk("Thought", true), Chunk("Line 2", false);
    DroppedChunkIgnored([line1], thought, [line2]);
    assert [line1] + [thought] + [line2] == [line1, thought, line2];
    assert [line1] + [line2] == [line1, line2];
    var parts := Texts([line1, line2]);
    assert parts == ["Line 1", "Line 2"] by {
      assert [line1, line2][..1] == [line1];
      TextsSingleton(line1);
    }
    assert parts[1..] == ["Line 2"];
    assert Join.Join(parts, Separator) == "Line 1" + Separator + "Line 2";
  }

  /** The store writer's case: a thought and a trailing empty text are both dropped. */
  lemma StoreBatchTexts()
    ensures Texts([Chunk("Chunk 1", false), Chunk("Thought", true), Chunk("Chunk 2", false), Chunk("", false)])
         == ["Chunk 1", "Chunk 2"]
  {
    var c1, thought, c2, empty := Chunk("Chunk 1", false), Chunk("Thought", true), Chunk("Chunk 2", false), Chunk("", false);
    assert [c1, thought, c2, empty] == [c1, thought] + [c2] + [empty];
    SurvivorContributes([c1, thought], c2, [empty]);
    TextsSingleton(empty);
  }

  /** Decimal digits of `n`, as `%d` prints them. */
  function Decimal(n: nat): (r: string)
    ensures |r| > 0
  {
    var digit := ['0' + (n % 10) as char];
    if n < 10 then digit else Decimal(n / 10) + digit
  }

  /** The large data set: 1000 chunks "Chunk 0" ... "Chunk 999", every even one a thought, keep 500. */
  lemma LargeDatasetKeepsHalf()
    ensures |Texts(seq(1000, i requires 0 <= i => Chunk("Chunk " + Decimal(i), i % 2 == 0)))| == 500
  {
    AlternatingKeepsHalf(seq(1000, i requires 0 <= i => Chunk("Chunk " + Decimal(i), i % 2 == 0)));
  }
}
