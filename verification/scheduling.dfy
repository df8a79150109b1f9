/**
 * `choose`: which words are due for review at time `now`, how new words top
 * the due words up to a minimum working set, and the pick of the next word.
 *
 * After a success a word waits `min(INIT * MULT^(successes - 1), MAX)`
 * seconds, after a failure `WRONG` seconds; a word that waited strictly longer
 * is due. New words are only used to bring the number of candidates up to
 * `MIN_AVAILABLE_WORDS`.
 */
module Scheduling {
  import opened Wrappers
  import opened Lists
  import opened Words
  import opened WordLists

  /**
   * The scheduler's configuration, in seconds and words:
   * TIME_BEFORE_REPEAT_INIT, TIME_BEFORE_REPEAT_MULT, TIME_BEFORE_REPEAT_MAX,
   * TIME_BEFORE_REPEAT_WRONG and MIN_AVAILABLE_WORDS.
   */
  datatype Config = Config(init: nat, mult: nat, max: nat, wrong: nat, minAvailable: nat)

  function Min(a: int, b: int): int {
    if a <= b then a else b
  }

  /** `pow(b, e)` on naturals. */
  function Pow(b: nat, e: nat): nat {
    if e == 0 then 1 else b * Pow(b, e - 1)
  }

  /** With a base of at least one, a larger exponent never gives a smaller power. */
  lemma {:induction false} PowMonotone(b: nat, e1: nat, e2: nat)
    requires b >= 1 && e1 <= e2
    ensures Pow(b, e1) <= Pow(b, e2)
    decreases e2
  {
    if e1 < e2 {
      PowMonotone(b, e1, e2 - 1);
      assert Pow(b, e2 - 1) <= b * Pow(b, e2 - 1);
    }
  }

  /**
   * The wait after the `successes`-th success: the initial interval multiplied
   * by MULT once per earlier success, capped at MAX.
   */
  function Interval(cfg: Config, successes: nat): (r: nat)
    requires successes >= 1
    ensures r <= cfg.max && r <= cfg.init * Pow(cfg.mult, successes - 1)
    ensures r == cfg.max || r == cfg.init * Pow(cfg.mult, successes - 1)
  {
    Min(cfg.init * Pow(cfg.mult, successes - 1), cfg.max)
  }

  /** The first success waits the initial interval (capped at MAX). */
  lemma FirstInterval(cfg: Config)
    ensures Interval(cfg, 1) == Min(cfg.init, cfg.max)
  {
  }

  /** With MULT at least one, every further success waits at least as long. */
  lemma {:induction false} IntervalMonotone(cfg: Config, n: nat, m: nat)
    requires cfg.mult >= 1 && 1 <= n <= m
    ensures Interval(cfg, n) <= Interval(cfg, m)
  {
    PowMonotone(cfg.mult, n - 1, m - 1);
    assert cfg.init * Pow(cfg.mult, n - 1) <= cfg.init * Pow(cfg.mult, m - 1);
  }

  /**
   * The due test of `choose` for a word that has been reviewed: after a
   * success, more than the back-off interval since the last success; after a
   * failure, more than WRONG since the last failure. It only looks at the
   * final review: the time elapsed since it must exceed the wait its outcome
   * asks for.
   */
  predicate Due(w: Word, now: nat, cfg: Config)
    requires !IsNew(w)
    ensures var last := w.events[|w.events| - 1];
            Due(w, now, cfg) <==>
              if last.eventType == SuccessEvent
              then NumberOfSuccess(w) >= 1 && now - last.time > Interval(cfg, NumberOfSuccess(w))
              else now - last.time > cfg.wrong
  {
    Trichotomy(w);
    if LastIsSuccess(w) then now - LastSuccessTime(w).value > Interval(cfg, NumberOfSuccess(w))
    else now - LastUnsuccessTime(w).value > cfg.wrong
  }

  /** The two buckets of `choose`: reviewed words that are due, and new words. */
  datatype Buckets = Buckets(available: seq<Word>, newWords: seq<Word>)

  /**
   * The loop of `choose` over the words in list order: a reviewed word that is
   * due goes to `available`, a new word to `newWords`, and a word on cooldown
   * to neither.
   */
  function Partition(words: seq<Word>, now: nat, cfg: Config): (b: Buckets)
    ensures forall w :: w in b.available <==> w in words && !IsNew(w) && Due(w, now, cfg)
    ensures forall w :: w in b.newWords <==> w in words && IsNew(w)
    ensures |b.available| + |b.newWords| <= |words|
  {
    if |words| == 0 then Buckets([], [])
    else
      var w := words[0];
      var rest := Partition(words[1..], now, cfg);
      assert forall x :: x in words <==> x == w || x in words[1..] by {
        assert words == [w] + words[1..];
      }
      if LastIsSuccess(w) then
        if Due(w, now, cfg) then rest.(available := [w] + rest.available) else rest
      else if IsNew(w) then rest.(newWords := [w] + rest.newWords)
      else if Due(w, now, cfg) then rest.(available := [w] + rest.available)
      else rest
  }

  /** Due test for reviewed words, as a total predicate on words. */
  function IsDueReviewed(now: nat, cfg: Config): Word -> bool {
    (w: Word) => !IsNew(w) && Due(w, now, cfg)
  }

  /**
   * Both buckets keep list order: they are exactly the list filtered by the
   * bucket's condition.
   */
  lemma {:induction false} PartitionKeepsOrder(words: seq<Word>, now: nat, cfg: Config)
    ensures Partition(words, now, cfg).available == Filter(IsDueReviewed(now, cfg), words)
    ensures Partition(words, now, cfg).newWords == Filter(IsNew, words)
    decreases |words|
  {
    if |words| > 0 {
      PartitionKeepsOrder(words[1..], now, cfg);
      Trichotomy(words[0]);
    }
  }

  /**
   * The number of candidates after the top-up: the due words alone once
   * `minAvailable` are due, otherwise `min(minAvailable, due + new)`.
   */
  function TopUpSize(due: nat, newCount: nat, minAvailable: nat): nat {
    if due >= minAvailable then due else Min(minAvailable, due + newCount)
  }

  /**
   * The top-up: nothing is added once `minAvailable` words are due;
   * otherwise the first `min(minAvailable - due, new)` new words follow the
   * due words in their order, so that the candidates number
   * `min(minAvailable, due + new)`.
   */
  function TopUpWith(due: seq<Word>, newWords: seq<Word>, minAvailable: nat): (r: seq<Word>)
    ensures |due| <= |r| && r[..|due|] == due
    ensures |r| == TopUpSize(|due|, |newWords|, minAvailable)
    ensures r[|due|..] == newWords[..|r| - |due|]
  {
    if |due| < minAvailable
    then
      var r := due + newWords[..Min(minAvailable - |due|, |newWords|)];
      assert r[..|due|] == due;
      r
    else due
  }

  /**
   * The candidates of `choose`: the due words in list order, topped up with
   * the first new words in list order. They start with every due word, and there are
   * `min(MIN_AVAILABLE_WORDS, due + new)` of them when fewer than
   * MIN_AVAILABLE_WORDS words are due.
   */
  function Available(words: seq<Word>, now: nat, cfg: Config): (r: seq<Word>)
    ensures var b := Partition(words, now, cfg);
            && |b.available| <= |r| && r[..|b.available|] == b.available
            && |r| == TopUpSize(|b.available|, |b.newWords|, cfg.minAvailable)
            && r[|b.available|..] == b.newWords[..|r| - |b.available|]
  {
    var b := Partition(words, now, cfg);
    TopUpWith(b.available, b.newWords, cfg.minAvailable)
  }

  /**
   * Which words are candidates: only words of the list; a reviewed word
   * exactly when it is due; a new word only when fewer than
   * MIN_AVAILABLE_WORDS words are due.
   */
  lemma {:induction false} AvailableMembership(words: seq<Word>, now: nat, cfg: Config, w: Word)
    ensures w in Available(words, now, cfg) ==> w in words
    ensures w in words && !IsNew(w) ==> (w in Available(words, now, cfg) <==> Due(w, now, cfg))
    ensures w in Available(words, now, cfg) && IsNew(w) ==>
              |Partition(words, now, cfg).available| < cfg.minAvailable
  {
    var b := Partition(words, now, cfg);
    var r := Available(words, now, cfg);
    if |b.available| < cfg.minAvailable {
      var k := Min(cfg.minAvailable - |b.available|, |b.newWords|);
      assert r == b.available + b.newWords[..k];
      assert forall x :: x in b.newWords[..k] ==> x in b.newWords;
    } else {
      assert r == b.available;
    }
  }

  /** The three answers of `choose`. */
  datatype ChooseResult = NoWords | AllDone | Picked(word: Word)

  /**
   * The text `choose` returns for each answer: a request for a file, a
   * message that everything is learned for now, or the picked word's text.
   */
  function Message(r: ChooseResult): (m: string)
    ensures r.NoWords? ==> m == "I need file from you to start :("
    ensures r.AllDone? ==> m == "Great job!\n For a moment you have learned everything, wait or send me more words."
    ensures r.Picked? ==> m == r.word.value
  {
    match r
    case NoWords => "I need file from you to start :("
    case AllDone => "Great job!\n For a moment you have learned everything, wait or send me more words."
    case Picked(w) => w.value
  }

  /** The answer of `choose` and the list afterwards. */
  datatype Chosen = Chosen(result: ChooseResult, list: UserWordList)

  /**
   * `choose` at time `now`. The random pick among the candidates is the
   * candidate at position `pick` modulo their number, so every candidate can
   * be picked (see ChooseCanPickAnyCandidate).
   */
  function Choose(l: UserWordList, now: nat, cfg: Config, pick: nat): (c: Chosen)
    ensures c.list == l.(current := c.list.current)
    ensures c.result.NoWords? <==> |l.words| == 0
    ensures c.result.NoWords? ==> c.list == l
    ensures c.result.AllDone? <==> |l.words| > 0 && |Available(l.words, now, cfg)| == 0
    ensures c.result.AllDone? ==> c.list.current.None?
    ensures c.result.Picked? ==>
              && c.result.word in Available(l.words, now, cfg)
              && c.result.word in l.words
              && c.list.current == Some(c.result.word)
  {
    if |l.words| == 0 then Chosen(NoWords, l)
    else
      var available := Available(l.words, now, cfg);
      if |available| == 0 then Chosen(AllDone, l.(current := None))
      else
        var w := available[pick % |available|];
        AvailableMembership(l.words, now, cfg, w);
        Chosen(Picked(w), l.(current := Some(w)))
  }

  /** A pick below the number of candidates is its own remainder. */
  lemma ModBelow(i: nat, n: nat)
    requires i < n
    ensures i % n == i
  {
  }

  /** With candidates, the pick `i` below their number selects the `i`-th candidate. */
  lemma ChoosePicksAt(l: UserWordList, now: nat, cfg: Config, i: nat)
    requires |l.words| > 0 && i < |Available(l.words, now, cfg)|
    ensures Choose(l, now, cfg, i).result == Picked(Available(l.words, now, cfg)[i])
  {
    ModBelow(i, |Available(l.words, now, cfg)|);
  }

  /** Every candidate is picked for some outcome of the random choice. */
  lemma ChooseCanPickAnyCandidate(l: UserWordList, now: nat, cfg: Config, w: Word)
    requires w in Available(l.words, now, cfg)
    ensures exists pick: nat :: Choose(l, now, cfg, pick).result == Picked(w)
  {
    var available := Available(l.words, now, cfg);
    var i :| 0 <= i < |available| && available[i] == w;
    assert |l.words| > 0 by {
      AvailableMembership(l.words, now, cfg, w);
    }
    ChoosePicksAt(l, now, cfg, i);
  }

  /** A word answered wrongly at `now` is not a candidate at `now`. */
  lemma FailedWordWaits(words: seq<Word>, w: Word, now: nat, cfg: Config)
    ensures Unsuccess(w, now) !in Available(words, now, cfg)
  {
    var w' := Unsuccess(w, now);
    AvailableMembership(words, now, cfg, w');
  }

  /** A word answered correctly at `now` is not a candidate at `now`. */
  lemma SucceededWordWaits(words: seq<Word>, w: Word, now: nat, cfg: Config)
    ensures Success(w, now) !in Available(words, now, cfg)
  {
    var w' := Success(w, now);
    AvailableMembership(words, now, cfg, w');
  }

  /**
   * With INIT = 100 and MULT = 4, a word last answered correctly 150 seconds
   * ago is due after its first success (150 > 100) but not after its second
   * (150 <= 400).
   */
  lemma BackOffExample(t: nat)
    ensures var cfg := Config(100, 4, 10000, 50, 2);
            var once := Word("a", [Event(t, SuccessEvent)], Some(5));
            var twice := Word("a", [Event(t, SuccessEvent), Event(t, SuccessEvent)], Some(5));
            Due(once, t + 150, cfg) && !Due(twice, t + 150, cfg)
  {
    var cfg := Config(100, 4, 10000, 50, 2);
    var twice := Word("a", [Event(t, SuccessEvent), Event(t, SuccessEvent)], Some(5));
    assert NumberOfSuccess(twice) == 2 by {
      var once := [Event(t, SuccessEvent)];
      assert once[..0] == [];
      assert CountOf(once, SuccessEvent) == 1;
      assert twice.events[..1] == once;
    }
    assert Pow(4, 1) == 4;
  }

  /** Filtering a three-element list. */
  lemma FilterThree(p: Word -> bool, x: Word, y: Word, z: Word)
    ensures Filter(p, [x, y, z]) ==
              (if p(x) then [x] else []) + (if p(y) then [y] else []) + (if p(z) then [z] else [])
  {
    assert [z][1..] == [];
    assert Filter(p, [z]) == (if p(z) then [z] else []) + Filter(p, []);
    assert [y, z][1..] == [z];
    assert Filter(p, [y, z]) == (if p(y) then [y] else []) + Filter(p, [z]);
    assert [x, y, z][1..] == [y, z];
    assert Filter(p, [x, y, z]) == (if p(x) then [x] else []) + Filter(p, [y, z]);
  }

  /** Three new words A, B and C. */
  function ExampleList(): seq<Word> {
    [NewWord("A", None), NewWord("B", None), NewWord("C", None)]
  }

  /** The buckets of three new words A, B and C: nothing due, all three new. */
  lemma ExampleBucketsFresh(now: nat, cfg: Config)
    ensures Partition(ExampleList(), now, cfg) == Buckets([], ExampleList())
  {
    var ws := ExampleList();
    var due := IsDueReviewed(now, cfg);
    assert ws == [ws[0], ws[1], ws[2]];
    assert IsNew(ws[0]) && IsNew(ws[1]) && IsNew(ws[2]);
    assert !due(ws[0]) && !due(ws[1]) && !due(ws[2]);
    FilterThree(due, ws[0], ws[1], ws[2]);
    FilterThree(IsNew, ws[0], ws[1], ws[2]);
    PartitionKeepsOrder(ws, now, cfg);
  }

  /** With MIN_AVAILABLE_WORDS = 2 and three new words A, B and C, the candidates are A and B. */
  lemma TopUpExampleFresh(now: nat, cfg: Config)
    requires cfg.minAvailable == 2
    ensures Available(ExampleList(), now, cfg) == ExampleList()[..2]
  {
    ExampleBucketsFresh(now, cfg);
    var r := Available(ExampleList(), now, cfg);
    assert r == r[0..];
  }

  /** The buckets once A has been answered wrongly at `now`: nothing due, B and C new. */
  lemma ExampleBucketsAfterFailure(now: nat, cfg: Config)
    ensures var ws := ExampleList();
            Partition([Unsuccess(ws[0], now), ws[1], ws[2]], now, cfg) == Buckets([], ws[1..])
  {
    var ws := ExampleList();
    var a' := Unsuccess(ws[0], now);
    var due := IsDueReviewed(now, cfg);
    assert !due(a') && !IsNew(a');
    assert IsNew(ws[1]) && IsNew(ws[2]);
    assert !due(ws[1]) && !due(ws[2]);
    FilterThree(due, a', ws[1], ws[2]);
    FilterThree(IsNew, a', ws[1], ws[2]);
    PartitionKeepsOrder([a', ws[1], ws[2]], now, cfg);
    assert ws[1..] == [ws[1], ws[2]];
  }

  /** Once A has been answered wrongly, A waits and the candidates are B and C. */
  lemma TopUpExampleAfterFailure(now: nat, cfg: Config)
    requires cfg.minAvailable == 2
    ensures var ws := ExampleList();
            Available([Unsuccess(ws[0], now), ws[1], ws[2]], now, cfg) == ws[1..]
  {
    var ws := ExampleList();
    ExampleBucketsAfterFailure(now, cfg);
    var r := Available([Unsuccess(ws[0], now), ws[1], ws[2]], now, cfg);
    assert r == r[0..];
    assert |ws[1..]| == 2;
  }
}
