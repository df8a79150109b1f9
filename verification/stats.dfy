/**
 * `get_stat`: how many words under review fall in each category, "new"
 * (never reviewed), "repeat" (last review succeeded) and "to learn" (reviewed,
 * last review failed), as a summary with keys in sorted order that leaves
 * out the categories no word falls in.
 */
module Stats {
  import opened Wrappers
  import opened Lists
  import opened Text
  import opened Words
  import opened WordLists

  /** The three counters of `get_stat`. */
  datatype Counts = Counts(isNew: nat, repeat: nat, toLearn: nat)

  /** Reviewed, with the last review not a success. */
  predicate ToLearn(w: Word) {
    !IsNew(w) && !LastIsSuccess(w)
  }

  /**
   * The loop of `get_stat`: each word is examined separately for the three
   * categories. Every word falls in exactly one, so the counts add up to the
   * number of words, and each count is the number of words of its category.
   */
  function CountCategories(words: seq<Word>): (c: Counts)
    ensures c.isNew + c.repeat + c.toLearn == |words|
    ensures c.isNew == |Filter(IsNew, words)|
    ensures c.repeat == |Filter(LastIsSuccess, words)|
    ensures c.toLearn == |Filter(ToLearn, words)|
  {
    if |words| == 0 then Counts(0, 0, 0)
    else
      var w := words[0];
      var c := CountCategories(words[1..]);
      Trichotomy(w);
      Counts(
        c.isNew + (if IsNew(w) then 1 else 0),
        c.repeat + (if LastIsSuccess(w) then 1 else 0),
        c.toLearn + (if !IsNew(w) && !LastIsSuccess(w) then 1 else 0))
  }

  /**
   * The counters that were incremented at least once, as (key, count)
   * pairs in sorted key order: "new" < "repeat" < "to learn".
   */
  function StatEntries(c: Counts): (r: seq<(string, nat)>)
    ensures forall i :: 0 <= i < |r| ==> r[i].1 > 0
    ensures forall i, j :: 0 <= i < j < |r| ==> StrLess(r[i].0, r[j].0)
    ensures ("new", c.isNew) in r <==> c.isNew > 0
    ensures ("repeat", c.repeat) in r <==> c.repeat > 0
    ensures ("to learn", c.toLearn) in r <==> c.toLearn > 0
    ensures forall e :: e in r ==>
              e == ("new", c.isNew) || e == ("repeat", c.repeat) || e == ("to learn", c.toLearn)
  {
    assert StrLess("new", "repeat") && StrLess("new", "to learn") && StrLess("repeat", "to learn");
    (if c.isNew > 0 then [("new", c.isNew)] else [])
    + (if c.repeat > 0 then [("repeat", c.repeat)] else [])
    + (if c.toLearn > 0 then [("to learn", c.toLearn)] else [])
  }

  /** No key of the summary holds a comma. */
  lemma KeysWithoutComma(c: Counts)
    ensures forall i :: 0 <= i < |StatEntries(c)| ==> ',' !in StatEntries(c)[i].0
  {
    var r := StatEntries(c);
    assert ',' !in "new" && ',' !in "repeat" && ',' !in "to learn";
    forall i | 0 <= i < |r| ensures ',' !in r[i].0 {
      assert r[i] in r;
    }
  }

  /**
   * `"{}: {}".format(key, count)`: the key, a colon and a space, then
   * decimal digits that read back as the count. It holds a comma only when
   * the key does.
   */
  function FormatEntry(e: (string, nat)): (r: string)
    ensures |r| > |e.0| + 2 && r[..|e.0| + 2] == e.0 + ": "
    ensures forall k :: |e.0| + 2 <= k < |r| ==> IsDigit(r[k])
    ensures ParseNat(r[|e.0| + 2..]) == e.1
    ensures ',' in r <==> ',' in e.0
  {
    var digits := NatToString(e.1);
    var r := e.0 + ": " + digits;
    assert r[..|e.0| + 2] == e.0 + ": " && r[|e.0| + 2..] == digits;
    ParseNatToString(e.1);
    assert ',' in r ==> ',' in e.0 by {
      if ',' in r {
        var k :| 0 <= k < |r| && r[k] == ',';
        assert k < |e.0|;
        assert e.0[k] == ',';
      }
    }
    assert ',' in e.0 ==> ',' in r by {
      if ',' in e.0 {
        var k :| 0 <= k < |e.0| && e.0[k] == ',';
        assert r[k] == ',';
      }
    }
    r
  }

  /**
   * The pieces between the commas of the summary: the formatted entries,
   * each after the first with the space that follows the comma.
   */
  function Pieces(entries: seq<(string, nat)>): seq<string> {
    seq(|entries|, i requires 0 <= i < |entries| => if i == 0 then FormatEntry(entries[0]) else " " + FormatEntry(entries[i]))
  }

  /** Joining pieces of which the first starts with `q` is `q` followed by the join without it. */
  lemma JoinPrefix(q: string, parts: seq<string>, sep: char)
    requires |parts| >= 1
    ensures Join([q + parts[0]] + parts[1..], sep) == q + Join(parts, sep)
  {
    var parts' := [q + parts[0]] + parts[1..];
    assert parts'[1..] == parts[1..];
  }

  /** The pieces of two or more entries: the first formatted entry, then a space before the pieces of the rest. */
  lemma PiecesStep(entries: seq<(string, nat)>)
    requires |entries| > 1
    ensures var tail := Pieces(entries[1..]);
            Pieces(entries) == [FormatEntry(entries[0])] + ([" " + tail[0]] + tail[1..])
  {
    var tail := Pieces(entries[1..]);
    var p := Pieces(entries);
    var q := [FormatEntry(entries[0])] + ([" " + tail[0]] + tail[1..]);
    assert |p| == |q|;
    forall i | 0 <= i < |p| ensures p[i] == q[i] {
      if i > 1 {
        assert q[i] == tail[i - 1] && entries[1..][i - 1] == entries[i];
      }
    }
  }

  /** When no key holds a comma, splitting the comma-join of the pieces at commas gives back the pieces. */
  lemma SplitPieces(entries: seq<(string, nat)>)
    requires |entries| > 0
    requires forall i :: 0 <= i < |entries| ==> ',' !in entries[i].0
    ensures Split(Join(Pieces(entries), ','), ',') == Pieces(entries)
  {
    var parts := Pieces(entries);
    forall k | 0 <= k < |parts| ensures ',' !in parts[k] {
      assert ',' !in FormatEntry(entries[k]);
    }
    SplitJoin(parts, ',');
  }

  /** One step of the join: the first formatted entry, a comma and a space, then the join of the rest. */
  lemma JoinPiecesStep(entries: seq<(string, nat)>, rest: string)
    requires |entries| > 1 && rest == Join(Pieces(entries[1..]), ',')
    ensures FormatEntry(entries[0]) + ", " + rest == Join(Pieces(entries), ',')
  {
    var parts := Pieces(entries);
    var tail := Pieces(entries[1..]);
    PiecesStep(entries);
    assert parts[0] == FormatEntry(entries[0]);
    assert parts[1..] == [" " + tail[0]] + tail[1..];
    JoinPrefix(" ", tail, ',');
    assert Join(parts[1..], ',') == " " + rest;
    assert Join(parts, ',') == parts[0] + [','] + Join(parts[1..], ',');
    assert FormatEntry(entries[0]) + ", " + rest == FormatEntry(entries[0]) + [','] + (" " + rest);
  }

  /**
   * `", ".join(...)` of the formatted entries: empty exactly when there are
   * none, otherwise the comma-join of the pieces.
   */
  function FormatEntries(entries: seq<(string, nat)>): (r: string)
    ensures r == [] <==> |entries| == 0
    ensures |entries| > 0 ==> r == Join(Pieces(entries), ',')
    decreases |entries|
  {
    if |entries| == 0 then []
    else if |entries| == 1 then
      assert Pieces(entries) == [FormatEntry(entries[0])] by {
        assert Pieces(entries)[0] == FormatEntry(entries[0]);
      }
      FormatEntry(entries[0])
    else
      var rest := FormatEntries(entries[1..]);
      JoinPiecesStep(entries, rest);
      FormatEntry(entries[0]) + ", " + rest
  }

  /**
   * `get_stat`: the summary of the words under review. It is empty exactly
   * when there are no words under review, since every word falls in some
   * category.
   */
  function GetStat(l: UserWordList): (r: string)
    ensures r == [] <==> |l.words| == 0
    ensures |l.words| > 0 ==> Split(r, ',') == Pieces(StatEntries(CountCategories(l.words)))
  {
    var entries := StatEntries(CountCategories(l.words));
    assert |l.words| > 0 ==> |entries| > 0;
    assert |l.words| > 0 ==> Split(FormatEntries(entries), ',') == Pieces(entries) by {
      if |l.words| > 0 {
        KeysWithoutComma(CountCategories(l.words));
        SplitPieces(entries);
      }
    }
    FormatEntries(entries)
  }

  /** One new word followed by two words whose last review succeeded. */
  function ExampleWords(t: nat): seq<Word> {
    var reviewed := Word("b", [Event(t, SuccessEvent)], None);
    [NewWord("a", None), reviewed, reviewed]
  }

  lemma ExampleCounts(t: nat)
    ensures CountCategories(ExampleWords(t)) == Counts(1, 2, 0)
  {
    var words := ExampleWords(t);
    var reviewed := words[1];
    assert CountCategories([]) == Counts(0, 0, 0);
    assert [reviewed][1..] == [];
    assert CountCategories([reviewed]) == Counts(0, 1, 0);
    assert [reviewed, reviewed][1..] == [reviewed];
    assert CountCategories([reviewed, reviewed]) == Counts(0, 2, 0);
    assert words[1..] == [reviewed, reviewed];
  }

  lemma ExampleEntries()
    ensures FormatEntry(("new", 1)) == "new: 1" && FormatEntry(("repeat", 2)) == "repeat: 2"
  {
    assert NatToString(1) == "1" && NatToString(2) == "2";
  }

  lemma ExampleFormat()
    ensures FormatEntries([("new", 1), ("repeat", 2)]) == "new: 1, repeat: 2"
  {
    var es := [("new", 1), ("repeat", 2)];
    ExampleEntries();
    assert es[1..] == [("repeat", 2)];
    assert FormatEntries(es[1..]) == "repeat: 2";
    assert FormatEntries(es) == "new: 1" + ", " + "repeat: 2";
  }

  lemma ExampleStatEntries()
    ensures StatEntries(Counts(1, 2, 0)) == [("new", 1), ("repeat", 2)]
  {
  }

  /** The summary of one new word and two words last answered correctly is "new: 1, repeat: 2". */
  lemma StatExample(t: nat)
    ensures GetStat(UserWordList("u", ExampleWords(t), None, [], [])) == "new: 1, repeat: 2"
  {
    ExampleCounts(t);
    ExampleStatEntries();
    ExampleFormat();
  }
}
