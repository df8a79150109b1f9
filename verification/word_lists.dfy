/**
 * A user's word list: the words under review, the word shown last, the words
 * the user deleted (kept so they are never added again) and the words held
 * back for low corpus frequency. This module holds the list itself, its
 * uniqueness invariant and the two direct edits, `add_word` and
 * `delete_current_word`.
 */
module WordLists {
  import opened Wrappers
  import opened Lists
  import opened Words

  /**
   * `UserWordList`. The file path, logger and configuration of the source
   * object are not part of the list's state here; the scheduler takes the
   * configuration as a parameter.
   */
  datatype UserWordList = UserWordList(
    username: string,
    words: seq<Word>,
    current: Option<Word>,
    banned: seq<Word>,
    lowFrequency: seq<Word>)

  /** An empty list for a user, as the constructor creates it. */
  function EmptyList(username: string): (l: UserWordList)
    ensures |l.words| == 0 && l.current.None? && |l.banned| == 0 && |l.lowFrequency| == 0
  {
    UserWordList(username, [], None, [], [])
  }

  /** `{str(word) for word in ws}`: the texts of the words. */
  function Values(ws: seq<Word>): set<string> {
    set w | w in ws :: w.value
  }

  /** No two words of `ws` have the same text. */
  predicate DistinctValues(ws: seq<Word>) {
    forall i, j :: 0 <= i < j < |ws| ==> ws[i].value != ws[j].value
  }

  /**
   * Each text occurs at most once among the words under review and the
   * deleted words together.
   */
  predicate Unique(l: UserWordList) {
    && DistinctValues(l.words)
    && DistinctValues(l.banned)
    && Values(l.words) !! Values(l.banned)
  }

  /** The values of a concatenation. */
  lemma ValuesAppend(a: seq<Word>, b: seq<Word>)
    ensures Values(a + b) == Values(a) + Values(b)
  {
    forall v | v in Values(a + b) ensures v in Values(a) + Values(b) {
      var w :| w in a + b && w.value == v;
    }
  }

  /**
   * Appending words with pairwise different texts, none of them already
   * under review or deleted, keeps every text unique.
   */
  lemma AppendFreshKeepsUnique(l: UserWordList, added: seq<Word>)
    requires Unique(l) && DistinctValues(added)
    requires forall w :: w in added ==> w.value !in Values(l.words) + Values(l.banned)
    ensures Unique(l.(words := l.words + added))
  {
    var ws := l.words + added;
    var n := |l.words|;
    forall i, j | 0 <= i < j < |ws| ensures ws[i].value != ws[j].value {
      if j >= n {
        assert ws[j] == added[j - n];
        if i < n {
          assert ws[i] in l.words;
        } else {
          assert ws[i] == added[i - n];
        }
      }
    }
    ValuesAppend(l.words, added);
    forall v | v in Values(added) ensures v !in Values(l.banned) {
      var w :| w in added && w.value == v;
    }
  }

  /** The result of `add_word`: the confirmation text and the new list. */
  datatype Added = Added(message: string, list: UserWordList)

  /**
   * `add_word`: appends a new, never reviewed word with the given text and no
   * frequency, without normalising it and without looking for duplicates.
   */
  function AddWord(l: UserWordList, value: string): (r: Added)
    ensures r.list.words == l.words + [NewWord(value, None)]
    ensures r.list == l.(words := r.list.words)
    ensures r.message == "word " + value + " was added"
  {
    Added("word " + value + " was added", l.(words := l.words + [NewWord(value, None)]))
  }

  /** Adding a text that is not yet known keeps every text unique. */
  lemma AddFreshWordKeepsUnique(l: UserWordList, value: string)
    requires Unique(l)
    requires value !in Values(l.words) && value !in Values(l.banned)
    ensures Unique(AddWord(l, value).list)
  {
    var w := NewWord(value, None);
    ValuesAppend(l.words, [w]);
    assert Values([w]) == {value};
  }

  /**
   * Because `add_word` does not look for duplicates, adding a text that is
   * already under review breaks uniqueness.
   */
  lemma AddWordCanDuplicate(l: UserWordList, value: string)
    requires value in Values(l.words)
    ensures !Unique(AddWord(l, value).list)
  {
    var w :| w in l.words && w.value == value;
    var i := FirstIndex(l.words, w);
    var words := AddWord(l, value).list.words;
    assert words[i] == w && words[|l.words|].value == value;
  }

  /**
   * The outcome of `delete_current_word`. The current word is first appended
   * to the deleted words; then, if it is not among the words under review,
   * `list.remove` raises, which leaves the list in the `NotUnderReview` state.
   */
  datatype DeleteOutcome =
    | Deleted(message: string, list: UserWordList)
    | NotUnderReview(list: UserWordList)

  /**
   * `delete_current_word`: moves the current word to the deleted words. The
   * current word itself is left as it was.
   */
  function DeleteCurrentWord(l: UserWordList): (r: DeleteOutcome)
    requires l.current.Some?
    ensures r.list.banned == l.banned + [l.current.value]
    ensures r.list.username == l.username && r.list.current == l.current
    ensures r.list.lowFrequency == l.lowFrequency
    ensures r.Deleted? <==> l.current.value in l.words
    ensures r.NotUnderReview? ==> r.list.words == l.words
    ensures r.Deleted? ==>
              && |r.list.words| == |l.words| - 1
              && multiset(r.list.words) == multiset(l.words) - multiset{l.current.value}
              && r.list.words == RemoveFirst(l.words, l.current.value)
              && r.message == l.current.value.value + " was deleted"
  {
    var cw := l.current.value;
    var l1 := l.(banned := l.banned + [cw]);
    if cw in l.words then Deleted(cw.value + " was deleted", l1.(words := RemoveFirst(l.words, cw)))
    else NotUnderReview(l1)
  }

  /**
   * Deleting a word that is under review keeps every text unique: its text
   * leaves the words under review and joins the deleted words.
   */
  lemma {:induction false} DeleteKeepsUnique(l: UserWordList)
    requires l.current.Some? && l.current.value in l.words
    requires Unique(l)
    ensures Unique(DeleteCurrentWord(l).list)
    ensures l.current.value.value !in Values(DeleteCurrentWord(l).list.words)
    ensures l.current.value.value in Values(DeleteCurrentWord(l).list.banned)
  {
    var cw := l.current.value;
    var ws := l.words;
    var i := FirstIndex(ws, cw);
    var ws' := DeleteCurrentWord(l).list.words;
    assert ws' == ws[..i] + ws[i + 1..];
    // positions of the remaining words in the original list
    assert forall p :: 0 <= p < |ws'| ==> ws'[p] == ws[if p < i then p else p + 1];
    forall p, q | 0 <= p < q < |ws'| ensures ws'[p].value != ws'[q].value {
      var p0 := if p < i then p else p + 1;
      var q0 := if q < i then q else q + 1;
      assert p0 < q0;
    }
    forall v | v in Values(ws') ensures v != cw.value && v in Values(ws) {
      var w :| w in ws' && w.value == v;
      var p :| 0 <= p < |ws'| && ws'[p] == w;
      var p0 := if p < i then p else p + 1;
      assert ws[p0] == w && p0 != i;
    }
    var b' := l.banned + [cw];
    ValuesAppend(l.banned, [cw]);
    assert Values([cw]) == {cw.value};
    assert cw.value !in Values(l.banned) by {
      assert cw.value in Values(ws);
    }
    forall p, q | 0 <= p < q < |b'| ensures b'[p].value != b'[q].value {
      if q == |l.banned| {
        assert b'[p] in l.banned;
      }
    }
  }

  /**
   * `delete_current_word` does not clear the current word. A second deletion
   * without choosing a new word therefore appends the same word to the
   * deleted words a second time before `list.remove` raises.
   */
  lemma {:induction false} DeleteTwiceDuplicatesBan(l: UserWordList)
    requires l.current.Some? && l.current.value in l.words
    requires Unique(l)
    ensures DeleteCurrentWord(l).Deleted?
    ensures DeleteCurrentWord(DeleteCurrentWord(l).list).NotUnderReview?
    ensures !DistinctValues(DeleteCurrentWord(DeleteCurrentWord(l).list).list.banned)
  {
    DeleteKeepsUnique(l);
    var l1 := DeleteCurrentWord(l).list;
    assert l.current.value !in l1.words;
    var b := DeleteCurrentWord(l1).list.banned;
    assert b[|b| - 2] == b[|b| - 1];
  }
}
