/** The batch transform: filter each level's questions by answer length,
    attach a generated grid to each survivor, and keep the levels that still
    have questions. File reading and writing are outside this model. */
module Levels {
  import opened Text
  import opened GridGen

  /** Answers longer than this (after stripping) are dropped. */
  const MaxAnswerLength: nat := 6

  /** The fixed tags every emitted level carries. */
  const Orientation: string := "6x6"
  const GridSize: int := 36

  /** An input question record: `q_id`, `coins`, `question`, `answer`. */
  datatype Question = Question(qId: int, coins: int, question: string, answer: string)

  /** An input level record: `id`, `title`, `timeLimit`, `questions`. */
  datatype Level = Level(id: int, title: string, timeLimit: int, questions: seq<Question>)

  /** An output question record, with its grid and `answerPlacement`. */
  datatype PuzzleQuestion = PuzzleQuestion(
    qId: int, coins: int, grid: seq<seq<string>>, answerPlacement: Placement,
    question: string, answer: string)

  /** An output level record, with the fixed orientation and grid-size tags. */
  datatype PuzzleLevel = PuzzleLevel(
    id: int, title: string, timeLimit: int, orientation: string, gridSize: int,
    questions: seq<PuzzleQuestion>)

  /** A question is kept when its stripped answer has at most six characters. */
  predicate Survives(q: Question)
  {
    |Strip(q.answer)| <= MaxAnswerLength
  }

  /** The question with its answer stripped (not lower-cased). */
  function Trimmed(q: Question): Question
  {
    q.(answer := Strip(q.answer))
  }

  /** The question records a level keeps, answers stripped, in input order. */
  function Survivors(qs: seq<Question>): (r: seq<Question>)
    ensures |r| <= |qs|
    ensures forall i :: 0 <= i < |r| ==> |r[i].answer| <= MaxAnswerLength && IsStripped(r[i].answer)
  {
    if qs == [] then []
    else
      var q := qs[|qs| - 1];
      Survivors(qs[..|qs| - 1]) + (if Survives(q) then [Trimmed(q)] else [])
  }

  /** A level is emitted when at least one of its questions survives. */
  predicate KeepsAQuestion(l: Level)
  {
    Survivors(l.questions) != []
  }

  /** The level with only its surviving questions. */
  function Reduced(l: Level): Level
  {
    l.(questions := Survivors(l.questions))
  }

  /** The levels the transform emits, each with its surviving questions, in
      input order; a level with no survivor is left out. */
  function Emitted(levels: seq<Level>): (r: seq<Level>)
    ensures |r| <= |levels|
    ensures forall i :: 0 <= i < |r| ==> r[i].questions != []
  {
    if levels == [] then []
    else
      var l := levels[|levels| - 1];
      Emitted(levels[..|levels| - 1]) + (if KeepsAQuestion(l) then [Reduced(l)] else [])
  }

  /** An output question carries the input's fields, the stripped answer, and a
      grid and placement that the generator promises for that answer. */
  ghost predicate RealizesQuestion(pq: PuzzleQuestion, q: Question)
  {
    && pq.qId == q.qId
    && pq.coins == q.coins
    && pq.question == q.question
    && pq.answer == q.answer
    && IsPuzzleFor(q.answer, pq.grid, pq.answerPlacement)
  }

  /** An output level carries the input's fields, the fixed tags and one
      realized question per kept question, in order. */
  ghost predicate RealizesLevel(pl: PuzzleLevel, l: Level)
  {
    && pl.id == l.id
    && pl.title == l.title
    && pl.timeLimit == l.timeLimit
    && pl.orientation == Orientation
    && pl.gridSize == GridSize
    && |pl.questions| == |l.questions|
    && forall j :: 0 <= j < |l.questions| ==> RealizesQuestion(pl.questions[j], l.questions[j])
  }

  /** The inner loop of the transform: one output question per kept question. */
  method EnrichQuestions(qs: seq<Question>) returns (newQs: seq<PuzzleQuestion>)
    ensures |newQs| == |Survivors(qs)|
    ensures forall j :: 0 <= j < |newQs| ==> RealizesQuestion(newQs[j], Survivors(qs)[j])
    ensures forall j :: 0 <= j < |newQs| ==>
              newQs[j].answerPlacement.Placed? && |newQs[j].answerPlacement.path| == |newQs[j].answer|
  {
    newQs := [];
    for i := 0 to |qs|
      invariant |newQs| == |Survivors(qs[..i])|
      invariant forall j :: 0 <= j < |newQs| ==> RealizesQuestion(newQs[j], Survivors(qs[..i])[j])
    {
      var q := qs[i];
      assert qs[..i + 1][..i] == qs[..i];
      ghost var kept := Survivors(qs[..i]);
      assert Survivors(qs[..i + 1]) == kept + (if Survives(q) then [Trimmed(q)] else []);
      var ans := Strip(q.answer);
      if |ans| > MaxAnswerLength {
        assert Survivors(qs[..i + 1]) == kept;
        continue;
      }
      var grid, placement := GenerateGridForWord(ans);
      var newQ := PuzzleQuestion(q.qId, q.coins, grid, placement, q.question, ans);
      RealizedAppend(newQs, kept, newQ, Trimmed(q));
      newQs := newQs + [newQ];
    }
    assert qs[..|qs|] == qs;
    forall j | 0 <= j < |newQs|
      ensures newQs[j].answerPlacement.Placed? && |newQs[j].answerPlacement.path| == |newQs[j].answer|
    {
      var pq := newQs[j];
      ShortWordIsPlaced(pq.answer, pq.grid, pq.answerPlacement);
    }
  }

  /** Appending a realized question to realized questions keeps them pairwise realized. */
  lemma RealizedAppend(done: seq<PuzzleQuestion>, kept: seq<Question>, pq: PuzzleQuestion, q: Question)
    requires |done| == |kept|
    requires forall j :: 0 <= j < |done| ==> RealizesQuestion(done[j], kept[j])
    requires RealizesQuestion(pq, q)
    ensures forall j :: 0 <= j < |done| + 1 ==> RealizesQuestion((done + [pq])[j], (kept + [q])[j])
  {
  }

  /** Appending a realized level to realized levels keeps them pairwise realized. */
  lemma LevelRealizedAppend(done: seq<PuzzleLevel>, kept: seq<Level>, pl: PuzzleLevel, l: Level)
    requires |done| == |kept|
    requires forall j :: 0 <= j < |done| ==> RealizesLevel(done[j], kept[j])
    requires RealizesLevel(pl, l)
    ensures forall j :: 0 <= j < |done| + 1 ==> RealizesLevel((done + [pl])[j], (kept + [l])[j])
  {
  }

  /** The outer loop of the transform: one output level per input level that
      keeps at least one question. */
  method TransformLevels(oldLevels: seq<Level>) returns (newLevels: seq<PuzzleLevel>)
    ensures |newLevels| == |Emitted(oldLevels)|
    ensures forall i :: 0 <= i < |newLevels| ==> RealizesLevel(newLevels[i], Emitted(oldLevels)[i])
  {
    newLevels := [];
    for i := 0 to |oldLevels|
      invariant |newLevels| == |Emitted(oldLevels[..i])|
      invariant forall k :: 0 <= k < |newLevels| ==> RealizesLevel(newLevels[k], Emitted(oldLevels[..i])[k])
    {
      var lvl := oldLevels[i];
      assert oldLevels[..i + 1][..i] == oldLevels[..i];
      ghost var emitted := Emitted(oldLevels[..i]);
      assert Emitted(oldLevels[..i + 1]) == emitted + (if KeepsAQuestion(lvl) then [Reduced(lvl)] else []);
      var newQs := EnrichQuestions(lvl.questions);
      if newQs != [] {
        var newLvl := PuzzleLevel(lvl.id, lvl.title, lvl.timeLimit, Orientation, GridSize, newQs);
        LevelRealizedAppend(newLevels, emitted, newLvl, Reduced(lvl));
        newLevels := newLevels + [newLvl];
      } else {
        assert Emitted(oldLevels[..i + 1]) == emitted;
      }
    }
    assert oldLevels[..|oldLevels|] == oldLevels;
  }

  /** Filtering distributes over concatenation: the survivors of a sequence are
      the survivors of its first part followed by those of the rest, so input
      order is kept. */
  lemma {:induction false} SurvivorsAppend(a: seq<Question>, b: seq<Question>)
    ensures Survivors(a + b) == Survivors(a) + Survivors(b)
  {
    if b == [] {
      assert a + b == a;
    } else {
      var q := b[|b| - 1];
      var b' := b[..|b| - 1];
      assert (a + b)[..|a + b| - 1] == a + b';
      assert (a + b)[|a + b| - 1] == q;
      var tail := if Survives(q) then [Trimmed(q)] else [];
      assert Survivors(a + b) == Survivors(a + b') + tail;
      assert Survivors(b) == Survivors(b') + tail;
      SurvivorsAppend(a, b');
      ConcatAssoc(Survivors(a), Survivors(b'), tail);
    }
  }

  /** Concatenation is associative. */
  lemma ConcatAssoc<T>(x: seq<T>, y: seq<T>, z: seq<T>)
    ensures (x + y) + z == x + (y + z)
  {
  }

  /** Every kept record is the trimmed form of a surviving input question. */
  lemma SurvivorsAreTrimmedSurvivors(qs: seq<Question>, x: Question)
    requires x in Survivors(qs)
    ensures exists i :: 0 <= i < |qs| && Survives(qs[i]) && x == Trimmed(qs[i])
  {
    var i := SurvivorSource(qs, x);
  }

  /** The position of the input question a kept record comes from. */
  lemma {:induction false} SurvivorSource(qs: seq<Question>, x: Question) returns (i: nat)
    requires x in Survivors(qs)
    ensures i < |qs| && Survives(qs[i]) && x == Trimmed(qs[i])
  {
    var n := |qs| - 1;
    var init, q := qs[..n], qs[n];
    var tail := if Survives(q) then [Trimmed(q)] else [];
    assert Survivors(qs) == Survivors(init) + tail;
    if x in Survivors(init) {
      i := SurvivorSource(init, x);
      PrefixAt(qs, n, i);
    } else {
      assert x in tail;
      i := n;
    }
  }

  /** An element of a prefix is the element at the same position of the whole. */
  lemma PrefixAt<T>(qs: seq<T>, n: nat, i: nat)
    requires i < n <= |qs|
    ensures qs[..n][i] == qs[i]
  {
  }

  /** Every surviving input question is kept, in trimmed form. */
  lemma SurvivorIsKept(qs: seq<Question>, i: nat)
    requires i < |qs| && Survives(qs[i])
    ensures Trimmed(qs[i]) in Survivors(qs)
  {
    SurvivorsAround(qs, i);
    SurvivorsSnoc([], qs[i]);
    assert [] + [qs[i]] == [qs[i]];
    KeptAtEnd(Survivors(qs[..i]), Trimmed(qs[i]), Survivors(qs[i + 1..]));
  }

  /** The survivors of a sequence split around any one position. */
  lemma SurvivorsAround(qs: seq<Question>, i: nat)
    requires i < |qs|
    ensures Survivors(qs) == Survivors(qs[..i]) + Survivors([qs[i]]) + Survivors(qs[i + 1..])
  {
    SplitAt(qs, i);
    SurvivorsAppend(qs[..i] + [qs[i]], qs[i + 1..]);
    SurvivorsAppend(qs[..i], [qs[i]]);
  }

  /** A sequence is its part before `i`, its element at `i` and its part after `i`. */
  lemma SplitAt<T>(qs: seq<T>, i: nat)
    requires i < |qs|
    ensures qs == qs[..i] + [qs[i]] + qs[i + 1..]
  {
  }

  /** Filtering one more question appends its trimmed form exactly when it survives. */
  lemma SurvivorsSnoc(qs: seq<Question>, q: Question)
    ensures Survivors(qs + [q]) == Survivors(qs) + (if Survives(q) then [Trimmed(q)] else [])
  {
    assert (qs + [q])[..|qs|] == qs;
  }

  /** An element placed between two sequences is a member of the whole. */
  lemma KeptAtEnd<T>(a: seq<T>, x: T, b: seq<T>)
    ensures x in a + [x] + b
  {
    assert (a + [x] + b)[|a|] == x;
  }

  /** A kept record is exactly the trimmed form of an input question that survives. */
  lemma SurvivorsMembership(qs: seq<Question>, x: Question)
    ensures x in Survivors(qs) <==> exists i :: 0 <= i < |qs| && Survives(qs[i]) && x == Trimmed(qs[i])
  {
    if x in Survivors(qs) {
      SurvivorsAreTrimmedSurvivors(qs, x);
    }
    if exists i :: 0 <= i < |qs| && Survives(qs[i]) && x == Trimmed(qs[i]) {
      var i :| 0 <= i < |qs| && Survives(qs[i]) && x == Trimmed(qs[i]);
      SurvivorIsKept(qs, i);
    }
  }

  /** A level keeps no question exactly when every answer is too long. */
  lemma {:induction false} SurvivorsEmptyIff(qs: seq<Question>)
    ensures Survivors(qs) == [] <==> forall i :: 0 <= i < |qs| ==> !Survives(qs[i])
  {
    if qs != [] {
      var init := qs[..|qs| - 1];
      SurvivorsEmptyIff(init);
      if Survivors(qs) == [] {
        forall i | 0 <= i < |qs|
          ensures !Survives(qs[i])
        {
          if i < |qs| - 1 {
            assert qs[i] == init[i];
          }
        }
      }
    }
  }

  /** Running the filter on its own output keeps everything: survivors already
      have stripped answers of at most six characters. */
  lemma {:induction false} SurvivorsIdempotent(qs: seq<Question>)
    ensures Survivors(Survivors(qs)) == Survivors(qs)
  {
    if qs != [] {
      var init := qs[..|qs| - 1];
      var q := qs[|qs| - 1];
      SurvivorsIdempotent(init);
      var tail := if Survives(q) then [Trimmed(q)] else [];
      SurvivorsAppend(Survivors(init), tail);
      if Survives(q) {
        StripIdempotent(q.answer);
        assert Survivors(tail) == Survivors([] + tail);
        assert tail[..0] == [];
      }
    }
  }

  /** The level filter distributes over concatenation: emitted levels keep
      input order. */
  lemma {:induction false} EmittedAppend(a: seq<Level>, b: seq<Level>)
    ensures Emitted(a + b) == Emitted(a) + Emitted(b)
  {
    if b == [] {
      assert a + b == a;
    } else {
      var l := b[|b| - 1];
      var b' := b[..|b| - 1];
      assert (a + b)[..|a + b| - 1] == a + b';
      assert (a + b)[|a + b| - 1] == l;
      var tail := if KeepsAQuestion(l) then [Reduced(l)] else [];
      assert Emitted(a + b) == Emitted(a + b') + tail;
      assert Emitted(b) == Emitted(b') + tail;
      EmittedAppend(a, b');
      ConcatAssoc(Emitted(a), Emitted(b'), tail);
    }
  }

  /** An emitted level is exactly an input level that keeps at least one
      question, carrying those questions. */
  lemma EmittedMembership(levels: seq<Level>, x: Level)
    ensures x in Emitted(levels) <==>
              exists i :: 0 <= i < |levels| && KeepsAQuestion(levels[i]) && x == Reduced(levels[i])
  {
    if x in Emitted(levels) {
      var i := EmittedSource(levels, x);
    }
    if exists i :: 0 <= i < |levels| && KeepsAQuestion(levels[i]) && x == Reduced(levels[i]) {
      var i :| 0 <= i < |levels| && KeepsAQuestion(levels[i]) && x == Reduced(levels[i]);
      LevelIsEmitted(levels, i);
    }
  }

  /** The position of the input level an emitted level comes from. */
  lemma {:induction false} EmittedSource(levels: seq<Level>, x: Level) returns (i: nat)
    requires x in Emitted(levels)
    ensures i < |levels| && KeepsAQuestion(levels[i]) && x == Reduced(levels[i])
  {
    var n := |levels| - 1;
    var init, l := levels[..n], levels[n];
    var tail := if KeepsAQuestion(l) then [Reduced(l)] else [];
    assert Emitted(levels) == Emitted(init) + tail;
    if x in Emitted(init) {
      i := EmittedSource(init, x);
      PrefixAt(levels, n, i);
    } else {
      assert x in tail;
      i := n;
    }
  }

  /** Every input level that keeps a question is emitted, reduced to its survivors. */
  lemma LevelIsEmitted(levels: seq<Level>, i: nat)
    requires i < |levels| && KeepsAQuestion(levels[i])
    ensures Reduced(levels[i]) in Emitted(levels)
  {
    SplitAt(levels, i);
    EmittedAppend(levels[..i] + [levels[i]], levels[i + 1..]);
    EmittedAppend(levels[..i], [levels[i]]);
    assert [levels[i]][..0] == [];
    KeptAtEnd(Emitted(levels[..i]), Reduced(levels[i]), Emitted(levels[i + 1..]));
  }

  /** A level produces an output level exactly when at least one of its
      answers is short enough; a level whose every answer is too long is
      dropped. */
  lemma LevelEmittedIff(l: Level)
    ensures Emitted([l]) != [] <==> exists i :: 0 <= i < |l.questions| && Survives(l.questions[i])
  {
    SurvivorsEmptyIff(l.questions);
    assert [l][..0] == [];
  }

  /** Transforming an already transformed collection keeps the same levels and
      the same questions. */
  lemma {:induction false} EmittedIdempotent(levels: seq<Level>)
    ensures Emitted(Emitted(levels)) == Emitted(levels)
  {
    if levels != [] {
      var init := levels[..|levels| - 1];
      var l := levels[|levels| - 1];
      EmittedIdempotent(init);
      var tail := if KeepsAQuestion(l) then [Reduced(l)] else [];
      EmittedAppend(Emitted(init), tail);
      if KeepsAQuestion(l) {
        SurvivorsIdempotent(l.questions);
        assert tail[..0] == [];
      }
    }
  }

  /** The answer " Cat " survives and is kept as "Cat": stripped but not
      lower-cased. */
  lemma CatIsKept()
    ensures Strip(" Cat ") == "Cat"
    ensures Survives(Question(1, 5, "Q?", " Cat "))
  {
    var t := TrimStart(" Cat ");
    assert t == TrimStart("Cat ") by { assert " Cat "[1..] == "Cat "; }
    assert t == "Cat ";
    assert TrimEnd(t) == TrimEnd("Cat") by { assert "Cat "[..3] == "Cat"; }
    assert TrimEnd("Cat") == "Cat";
  }

  /** The grid spells the surviving answer "Cat" in lower case. */
  lemma CatIsSpelledLower()
    ensures Lower("Cat") == "cat"
  {
    assert LowerChar('C') == 'c';
  }

  /** The eight-letter answer "elephant" is dropped. */
  lemma ElephantIsDropped()
    ensures !Survives(Question(2, 5, "Q?", "elephant"))
  {
    assert TrimStart("elephant") == "elephant";
    assert TrimEnd("elephant") == "elephant";
  }
}
