/**
 * `load_new_words`: ingestion of a submitted text of raw words, one per line.
 * Lines are stripped, blank and non-ASCII lines dropped, duplicates and texts
 * already under review or deleted removed; each remaining raw word is looked
 * up by the normaliser, which may give its root form and corpus frequency.
 * A root not yet under review or deleted becomes a new word: under review
 * when its frequency is at least 1, held back otherwise.
 */
module Loading {
  import opened Wrappers
  import opened Lists
  import opened Text
  import opened Words
  import opened WordLists

  /**
   * The dictionary lookup (`get_root_form_and_frequency`): a raw word's root
   * form and frequency, or None for an unknown word.
   */
  type Normaliser = string -> Option<(string, int)>

  /** The submitted text split at newlines, each line stripped. */
  function StrippedLines(text: string): (r: seq<string>)
    ensures |r| == |Split(text, '\n')|
    ensures forall i :: 0 <= i < |r| ==> r[i] == Strip(Split(text, '\n')[i])
  {
    var lines := Split(text, '\n');
    seq(|lines|, i requires 0 <= i < |lines| => Strip(lines[i]))
  }

  predicate NonEmpty(s: string) {
    s != []
  }

  /** `[one for one in lines if one]`. */
  function NonBlank(lines: seq<string>): (r: seq<string>)
    ensures forall s :: s in r <==> s in lines && s != []
  {
    Filter(NonEmpty, lines)
  }

  /** `[one for one in lines if is_ascii(one)]`. */
  function AsciiOnly(lines: seq<string>): (r: seq<string>)
    ensures forall s :: s in r <==> s in lines && IsAscii(s)
  {
    Filter(IsAscii, lines)
  }

  /** A text that is neither under review nor deleted. */
  function Unknown(l: UserWordList): string -> bool {
    (s: string) => s !in Values(l.words) && s !in Values(l.banned)
  }

  /** The raw words whose text is neither under review nor deleted. */
  function UnknownTo(l: UserWordList, raws: seq<string>): (r: seq<string>)
    ensures forall s :: s in r <==> s in raws && s !in Values(l.words) && s !in Values(l.banned)
    ensures NoDuplicates(raws) ==> NoDuplicates(r)
  {
    FilterKeepsNoDuplicates(Unknown(l), raws);
    Filter(Unknown(l), raws)
  }

  /**
   * The raw words `load_new_words` looks up: stripped, non-blank, ASCII,
   * each once, and not the text of a word under review or deleted.
   */
  function Candidates(l: UserWordList, text: string): (r: seq<string>)
    ensures NoDuplicates(r)
    ensures forall s :: s in r <==>
              s in StrippedLines(text) && s != [] && IsAscii(s)
              && s !in Values(l.words) && s !in Values(l.banned)
  {
    UnknownTo(l, Dedupe(AsciiOnly(NonBlank(StrippedLines(text)))))
  }

  /** Every candidate is the stripped form of some line of the text. */
  lemma CandidateComesFromLine(l: UserWordList, text: string, s: string)
    requires s in Candidates(l, text)
    ensures exists i :: 0 <= i < |Split(text, '\n')| && s == Strip(Split(text, '\n')[i])
  {
    var ls := StrippedLines(text);
    var i :| 0 <= i < |ls| && ls[i] == s;
  }

  /** `w` is the word the normaliser makes of one of `raws`. */
  ghost predicate Normalised(w: Word, raws: seq<string>, api: Normaliser) {
    w.frequency.Some? && exists raw :: raw in raws && api(raw) == Some((w.value, w.frequency.value))
  }

  /** The texts under review or deleted: a root among them is never added again. */
  function Known(l: UserWordList): set<string> {
    Values(l.words) + Values(l.banned)
  }

  /**
   * Every word of `added` is new, has a frequency of at least 1, has a root
   * outside `known`, and is the normaliser's answer for one of `raws`.
   */
  ghost predicate GoodAdded(known: set<string>, raws: seq<string>, api: Normaliser, added: seq<Word>) {
    forall w :: w in added ==>
      && IsNew(w) && w.frequency.Some? && w.frequency.value >= 1
      && w.value !in known && Normalised(w, raws, api)
  }

  /**
   * Every word of `held` is new, has a frequency below 1, has a root outside
   * `known`, and is the normaliser's answer for one of `raws`.
   */
  ghost predicate GoodHeld(known: set<string>, raws: seq<string>, api: Normaliser, held: seq<Word>) {
    forall w :: w in held ==>
      && IsNew(w) && w.frequency.Some? && w.frequency.value < 1
      && w.value !in known && Normalised(w, raws, api)
  }

  /**
   * Every raw word of `raws` whose root is frequent and not deleted has its
   * root among `words`.
   */
  ghost predicate Complete(raws: seq<string>, api: Normaliser, banned: seq<Word>, words: seq<Word>) {
    forall raw :: raw in raws && api(raw).Some? && api(raw).value.1 >= 1
                  && api(raw).value.0 !in Values(banned) ==>
      api(raw).value.0 in Values(words)
  }

  /** The list after ingestion and the words put under review. */
  datatype Ingested = Ingested(list: UserWordList, added: seq<Word>)

  /** The new held-back words of `after`, compared with `before`. */
  function HeldBack(before: UserWordList, after: UserWordList): seq<Word>
    requires |before.lowFrequency| <= |after.lowFrequency|
  {
    after.lowFrequency[|before.lowFrequency|..]
  }

  /** The normaliser knows `raw`, its root is rare (frequency below 1) and not in `known`. */
  predicate RareAndUnknown(known: set<string>, raw: string, api: Normaliser) {
    api(raw).Some? && api(raw).value.1 < 1 && api(raw).value.0 !in known
  }

  /** The new word made of the normaliser's answer for `raw`. */
  function AnswerWord(raw: string, api: Normaliser): Word
    requires api(raw).Some?
  {
    NewWord(api(raw).value.0, Some(api(raw).value.1))
  }

  /** The raw words for which the normaliser's answer is the word `w`. */
  function Gives(api: Normaliser, w: Word): string -> bool {
    (raw: string) => api(raw).Some? && AnswerWord(raw, api) == w
  }

  /**
   * One pass of the loop of `load_new_words`, for the raw word `raw`. An
   * unknown raw word is skipped, and so is one whose root is already under
   * review or deleted. Otherwise the root becomes a new word, put under
   * review when its frequency is at least 1 and held back otherwise.
   */
  function Step(l: UserWordList, raw: string, api: Normaliser): (r: Ingested)
    ensures r.list.username == l.username && r.list.current == l.current
    ensures r.list.banned == l.banned
    ensures r.list.words == l.words + r.added && |r.added| <= 1
    ensures |r.added| == 1 <==> api(raw).Some? && api(raw).value.1 >= 1 && api(raw).value.0 !in Known(l)
    ensures GoodAdded(Known(l), [raw], api, r.added)
    ensures |l.lowFrequency| <= |r.list.lowFrequency| <= |l.lowFrequency| + 1
    ensures r.list.lowFrequency[..|l.lowFrequency|] == l.lowFrequency
    ensures GoodHeld(Known(l), [raw], api, HeldBack(l, r.list))
    ensures HeldBack(l, r.list) ==
              if RareAndUnknown(Known(l), raw, api) then [AnswerWord(raw, api)] else []
    ensures Complete([raw], api, l.banned, r.list.words)
  {
    match api(raw)
    case None => Ingested(l, [])
    case Some((root, frequency)) =>
      if root !in Values(l.words) && root !in Values(l.banned) then
        var w := NewWord(root, Some(frequency));
        assert Normalised(w, [raw], api) by { assert raw in [raw]; }
        if frequency >= 1 then
          assert w in l.words + [w];
          Ingested(l.(words := l.words + [w]), [w])
        else
          var l1 := l.(lowFrequency := l.lowFrequency + [w]);
          assert HeldBack(l, l1) == [w];
          Ingested(l1, [])
      else Ingested(l, [])
  }

  /**
   * The loop of `load_new_words` over the raw words, in the order given.
   * Roots put under review earlier in the loop count as known to later
   * passes.
   */
  function Ingest(l: UserWordList, raws: seq<string>, api: Normaliser): (r: Ingested)
    ensures r.list.username == l.username && r.list.current == l.current
    ensures r.list.banned == l.banned
    ensures r.list.words == l.words + r.added
    ensures DistinctValues(r.added)
    ensures GoodAdded(Known(l), raws, api, r.added)
    ensures |r.list.lowFrequency| >= |l.lowFrequency|
    ensures r.list.lowFrequency[..|l.lowFrequency|] == l.lowFrequency
    decreases |raws|
  {
    if |raws| == 0 then Ingested(l, [])
    else
      var step := Step(l, raws[0], api);
      var rest := Ingest(step.list, raws[1..], api);
      var added := step.added + rest.added;
      assert Values(step.list.words) <= Values(rest.list.words) && Known(l) <= Known(step.list) by {
        ValuesAppend(l.words, step.added);
        ValuesAppend(step.list.words, rest.added);
      }
      assert DistinctValues(added) by {
        ComposeDistinct(l.words, step.added, rest.added);
      }
      assert GoodAdded(Known(l), raws, api, added) by {
        ComposeAdded(Known(l), Known(step.list), raws, api, step.added, rest.added);
      }
      Ingested(rest.list, added)
  }

  /** Every word the loop holds back is new, infrequent, has a root not known before and comes from one of `raws`. */
  lemma {:induction false} IngestHoldsBack(l: UserWordList, raws: seq<string>, api: Normaliser)
    ensures var r := Ingest(l, raws, api);
            GoodHeld(Known(l), raws, api, HeldBack(l, r.list))
    decreases |raws|
  {
    if |raws| > 0 {
      var step := Step(l, raws[0], api);
      var rest := Ingest(step.list, raws[1..], api);
      var held := HeldBack(l, step.list);
      var heldRest := HeldBack(step.list, rest.list);
      assert GoodHeld(Known(step.list), raws[1..], api, heldRest) by {
        IngestHoldsBack(step.list, raws[1..], api);
      }
      assert Known(l) <= Known(step.list) by {
        ValuesAppend(l.words, step.added);
      }
      assert GoodHeld(Known(l), raws, api, held + heldRest) by {
        ComposeHeld(Known(l), Known(step.list), raws, api, held, heldRest);
      }
      assert Ingest(l, raws, api).list == rest.list;
      assert HeldBack(l, rest.list) == held + heldRest;
    }
  }

  /** The words held back by the loop are those of its first pass followed by those of the rest. */
  lemma HeldBackSplits(l: UserWordList, mid: UserWordList, final: UserWordList)
    requires |l.lowFrequency| <= |mid.lowFrequency| <= |final.lowFrequency|
    requires final.lowFrequency[..|mid.lowFrequency|] == mid.lowFrequency
    ensures HeldBack(l, final) == HeldBack(l, mid) + HeldBack(mid, final)
  {
    var a, b := |l.lowFrequency|, |mid.lowFrequency|;
    assert final.lowFrequency[a..b] == mid.lowFrequency[a..] by {
      assert final.lowFrequency[a..b] == final.lowFrequency[..b][a..];
    }
    assert final.lowFrequency[a..] == final.lowFrequency[a..b] + final.lowFrequency[b..];
  }

  /**
   * Every raw word whose root is rare and still unknown after the loop has
   * that root held back: the pass for it found the root unknown too, since
   * the known roots only grow.
   */
  lemma {:induction false} IngestHoldsBackRare(l: UserWordList, raws: seq<string>, api: Normaliser)
    ensures var r := Ingest(l, raws, api);
            forall raw :: raw in raws && RareAndUnknown(Known(r.list), raw, api) ==>
              AnswerWord(raw, api) in HeldBack(l, r.list)
    decreases |raws|
  {
    if |raws| > 0 {
      var step := Step(l, raws[0], api);
      var rest := Ingest(step.list, raws[1..], api);
      IngestHoldsBackRare(step.list, raws[1..], api);
      assert Ingest(l, raws, api).list == rest.list;
      assert Known(l) <= Known(step.list) by {
        ValuesAppend(l.words, step.added);
      }
      assert Known(step.list) <= Known(rest.list) by {
        ValuesAppend(step.list.words, rest.added);
      }
      HeldBackSplits(l, step.list, rest.list);
      forall raw | raw in raws && RareAndUnknown(Known(rest.list), raw, api)
        ensures AnswerWord(raw, api) in HeldBack(l, rest.list)
      {
        if raw == raws[0] {
          assert RareAndUnknown(Known(l), raw, api);
          assert AnswerWord(raw, api) in HeldBack(l, step.list);
        } else {
          assert raw in raws[1..] by { assert raws == [raws[0]] + raws[1..]; }
        }
      }
    }
  }

  /**
   * Each pass holds back at most one word, the answer for its own raw word,
   * so a word is held back at most as many times as raw words give it.
   */
  lemma {:induction false} IngestHoldsBackOncePerRaw(l: UserWordList, raws: seq<string>, api: Normaliser)
    ensures var r := Ingest(l, raws, api);
            forall w :: multiset(HeldBack(l, r.list))[w] <= |Filter(Gives(api, w), raws)|
    decreases |raws|
  {
    if |raws| > 0 {
      var step := Step(l, raws[0], api);
      var rest := Ingest(step.list, raws[1..], api);
      IngestHoldsBackOncePerRaw(step.list, raws[1..], api);
      assert Ingest(l, raws, api).list == rest.list;
      HeldBackSplits(l, step.list, rest.list);
      var held := HeldBack(l, step.list);
      var heldRest := HeldBack(step.list, rest.list);
      forall w ensures multiset(held + heldRest)[w] <= |Filter(Gives(api, w), raws)| {
        assert multiset(held + heldRest)[w] == multiset(held)[w] + multiset(heldRest)[w];
        assert multiset(held)[w] <= if Gives(api, w)(raws[0]) then 1 else 0;
        assert Filter(Gives(api, w), raws) ==
                 (if Gives(api, w)(raws[0]) then [raws[0]] else []) + Filter(Gives(api, w), raws[1..]);
      }
    } else {
      assert HeldBack(l, Ingest(l, raws, api).list) == [];
    }
  }

  /**
   * After the loop, the root of every raw word that the normaliser knows,
   * that is frequent and that is not deleted is under review: either it
   * already was, or the loop added it.
   */
  lemma {:induction false} IngestComplete(l: UserWordList, raws: seq<string>, api: Normaliser)
    ensures Complete(raws, api, l.banned, Ingest(l, raws, api).list.words)
    decreases |raws|
  {
    if |raws| > 0 {
      var step := Step(l, raws[0], api);
      var rest := Ingest(step.list, raws[1..], api);
      IngestComplete(step.list, raws[1..], api);
      ValuesAppend(step.list.words, rest.added);
      ComposeComplete(raws, api, l.banned, step.list.words, rest.list.words);
    }
  }

  /** Words added by one pass and by the rest of the loop have pairwise different texts. */
  lemma ComposeDistinct(words: seq<Word>, first: seq<Word>, rest: seq<Word>)
    requires |first| <= 1 && DistinctValues(rest)
    requires forall w :: w in rest ==> w.value !in Values(words + first)
    ensures DistinctValues(first + rest)
  {
    var added := first + rest;
    forall i, j | 0 <= i < j < |added| ensures added[i].value != added[j].value {
      assert added[j] == rest[j - |first|];
      if i < |first| {
        assert added[i] in words + first;
      } else {
        assert added[i] == rest[i - |first|];
      }
    }
  }

  /** The words added by one pass and by the rest of the loop are good for the whole loop. */
  lemma ComposeAdded(known: set<string>, known': set<string>, raws: seq<string>, api: Normaliser,
                     first: seq<Word>, rest: seq<Word>)
    requires |raws| > 0 && known <= known'
    requires GoodAdded(known, [raws[0]], api, first)
    requires GoodAdded(known', raws[1..], api, rest)
    ensures GoodAdded(known, raws, api, first + rest)
  {
    forall w | w in first + rest ensures Normalised(w, raws, api) {
      if w in first {
        var r0 :| r0 in [raws[0]] && api(r0) == Some((w.value, w.frequency.value));
        assert r0 in raws;
      } else {
        var r0 :| r0 in raws[1..] && api(r0) == Some((w.value, w.frequency.value));
        assert r0 in raws;
      }
    }
  }

  /** The words held back by one pass and by the rest of the loop are good for the whole loop. */
  lemma ComposeHeld(known: set<string>, known': set<string>, raws: seq<string>, api: Normaliser,
                    first: seq<Word>, rest: seq<Word>)
    requires |raws| > 0 && known <= known'
    requires GoodHeld(known, [raws[0]], api, first)
    requires GoodHeld(known', raws[1..], api, rest)
    ensures GoodHeld(known, raws, api, first + rest)
  {
    forall w | w in first + rest ensures Normalised(w, raws, api) {
      if w in first {
        var r0 :| r0 in [raws[0]] && api(r0) == Some((w.value, w.frequency.value));
        assert r0 in raws;
      } else {
        var r0 :| r0 in raws[1..] && api(r0) == Some((w.value, w.frequency.value));
        assert r0 in raws;
      }
    }
  }

  /** Completeness of one pass and of the rest of the loop give completeness of the whole loop. */
  lemma ComposeComplete(raws: seq<string>, api: Normaliser, banned: seq<Word>,
                        mid: seq<Word>, final: seq<Word>)
    requires |raws| > 0 && Values(mid) <= Values(final)
    requires Complete([raws[0]], api, banned, mid)
    requires Complete(raws[1..], api, banned, final)
    ensures Complete(raws, api, banned, final)
  {
    forall raw | raw in raws ensures raw == raws[0] || raw in raws[1..] {
      assert raws == [raws[0]] + raws[1..];
    }
  }

  /**
   * When every raw word is unknown, infrequent or has a known root,
   * ingestion puts nothing under review.
   */
  lemma {:induction false} IngestNothingNew(l: UserWordList, raws: seq<string>, api: Normaliser)
    requires forall raw :: raw in raws ==>
               api(raw).None? || api(raw).value.1 < 1 || api(raw).value.0 in Known(l)
    ensures Ingest(l, raws, api).added == []
    decreases |raws|
  {
    if |raws| > 0 {
      var step := Step(l, raws[0], api);
      assert raws[0] in raws;
      assert Known(step.list) == Known(l);
      IngestNothingNew(step.list, raws[1..], api);
    }
  }

  /** The result of `load_new_words`: the words put under review, the new list, and the raw words looked up. */
  datatype Loaded = Loaded(added: seq<Word>, list: UserWordList, lookedUp: seq<string>)

  /**
   * `load_new_words`. Only stripped, non-blank, ASCII raw words that are not
   * already under review or deleted are looked up, each once. Every word it
   * returns is new, has frequency at least 1, has a root that was not known
   * before, is the normaliser's answer for one of the raw words looked up,
   * and is appended to the words under review; no two have the same text.
   * Words with frequency below 1 are only appended to the held-back words,
   * each at most once per raw word that gives it, and every rare root still
   * unknown afterwards is among them.
   * The deleted words and the current word do not change.
   */
  function LoadNewWords(l: UserWordList, text: string, api: Normaliser): (r: Loaded)
    ensures NoDuplicates(r.lookedUp)
    ensures forall s :: s in r.lookedUp <==>
              s in StrippedLines(text) && s != [] && IsAscii(s) && s !in Known(l)
    ensures r.list.username == l.username && r.list.current == l.current
    ensures r.list.banned == l.banned
    ensures r.list.words == l.words + r.added
    ensures DistinctValues(r.added)
    ensures GoodAdded(Known(l), r.lookedUp, api, r.added)
    ensures |r.list.lowFrequency| >= |l.lowFrequency|
    ensures r.list.lowFrequency[..|l.lowFrequency|] == l.lowFrequency
    ensures GoodHeld(Known(l), r.lookedUp, api, HeldBack(l, r.list))
    ensures forall raw :: raw in r.lookedUp && RareAndUnknown(Known(r.list), raw, api) ==>
              AnswerWord(raw, api) in HeldBack(l, r.list)
    ensures forall w :: multiset(HeldBack(l, r.list))[w] <= |Filter(Gives(api, w), r.lookedUp)|
    ensures Complete(r.lookedUp, api, l.banned, r.list.words)
  {
    var raws := Candidates(l, text);
    var ingested := Ingest(l, raws, api);
    IngestHoldsBack(l, raws, api);
    IngestHoldsBackRare(l, raws, api);
    IngestHoldsBackOncePerRaw(l, raws, api);
    IngestComplete(l, raws, api);
    Loaded(ingested.added, ingested.list, raws)
  }

  /** Ingestion keeps every text unique among the words under review and the deleted words. */
  lemma {:induction false} LoadKeepsUnique(l: UserWordList, text: string, api: Normaliser)
    requires Unique(l)
    ensures Unique(LoadNewWords(l, text, api).list)
  {
    var r := LoadNewWords(l, text, api);
    assert forall w :: w in r.added ==> w.value !in Values(l.words) + Values(l.banned);
    AppendFreshKeepsUnique(l, r.added);
    assert r.list == l.(words := l.words + r.added, lowFrequency := r.list.lowFrequency);
  }

  /**
   * Loading the same text a second time, with the same normaliser, puts no
   * further word under review: every raw word of the second load was looked
   * up the first time, and every root it could add was added then.
   */
  lemma ReloadAddsNothing(l: UserWordList, text: string, api: Normaliser)
    ensures var first := LoadNewWords(l, text, api);
            LoadNewWords(first.list, text, api).added == []
  {
    var first := LoadNewWords(l, text, api);
    var raws := Candidates(first.list, text);
    ValuesAppend(l.words, first.added);
    assert Known(l) <= Known(first.list);
    forall raw | raw in raws
      ensures api(raw).None? || api(raw).value.1 < 1 || api(raw).value.0 in Known(first.list)
    {
      assert raw in first.lookedUp;
    }
    IngestNothingNew(first.list, raws, api);
  }

  /**
   * Held-back words are not consulted when a root is checked for being known,
   * so loading the same text again holds the same rare root back a second
   * time.
   */
  lemma RareRootHeldBackAgain(l: UserWordList, text: string, api: Normaliser, raw: string)
    requires raw in LoadNewWords(l, text, api).lookedUp
    requires raw !in Known(LoadNewWords(l, text, api).list)
    requires RareAndUnknown(Known(LoadNewWords(l, text, api).list), raw, api)
    ensures var first := LoadNewWords(l, text, api);
            var second := LoadNewWords(first.list, text, api);
            && AnswerWord(raw, api) in HeldBack(l, first.list)
            && AnswerWord(raw, api) in HeldBack(first.list, second.list)
  {
    var first := LoadNewWords(l, text, api);
    var second := LoadNewWords(first.list, text, api);
    ReloadAddsNothing(l, text, api);
    assert second.list.words == first.list.words;
    assert Known(second.list) == Known(first.list);
    assert raw in second.lookedUp;
  }

  /**
   * A deleted word never comes back through ingestion: its text is neither
   * looked up nor put under review again.
   */
  lemma DeletedWordStaysDeleted(l: UserWordList, text: string, api: Normaliser)
    requires l.current.Some? && l.current.value in l.words && Unique(l)
    ensures var after := DeleteCurrentWord(l).list;
            var loaded := LoadNewWords(after, text, api);
            && l.current.value.value !in loaded.lookedUp
            && l.current.value.value !in Values(loaded.list.words)
  {
    DeleteKeepsUnique(l);
    var after := DeleteCurrentWord(l).list;
    var loaded := LoadNewWords(after, text, api);
    ValuesAppend(after.words, loaded.added);
  }
}
