/** Model of the spelling checker (WordChecker): a word exists when the
    dictionary holds it, and suggestions are the candidates built from a word
    by one edit (adjacent swap, interior insertion, deletion, replacement, or
    a split into two words) that pass the dictionary test, in a fixed order. */
module Spelling {

  /** The letters tried by `addChars` and `repChar`, as the source spells
      them: 'X' appears twice and 'Z' not at all. */
  const ALPHABET: string := "ABCDEFGHIJKLMNOPQRSTUVWXYX"

  lemma AlphabetAsWritten()
    ensures |ALPHABET| == 26 && 'Z' !in ALPHABET
    ensures ALPHABET[23] == 'X' && ALPHABET[25] == 'X'
    ensures forall j :: 0 <= j < |ALPHABET| && j != 23 && j != 25 ==> ALPHABET[j] != 'X'
  {
  }

  // ---------------------------------------------------------------------------
  // One edit of a word

  /** `w` with positions `i` and `i + 1` exchanged. */
  function Swapped(w: string, i: nat): (s: string)
    requires i + 1 < |w|
    ensures |s| == |w| && s[i] == w[i + 1] && s[i + 1] == w[i]
  {
    w[i := w[i + 1]][i + 1 := w[i]]
  }

  /** A swap leaves every other position alone. */
  lemma SwappedElsewhere(w: string, i: nat)
    requires i + 1 < |w|
    ensures forall k :: 0 <= k < |w| && k != i && k != i + 1 ==> Swapped(w, i)[k] == w[k]
  {
  }

  /** `w` with `c` inserted before position `i`. */
  function Inserted(w: string, i: nat, c: char): (s: string)
    requires i <= |w|
    ensures |s| == |w| + 1 && s[i] == c
  {
    w[..i] + [c] + w[i..]
  }

  /** Removing the inserted letter gives back the word. */
  lemma InsertedRemoved(w: string, i: nat, c: char)
    requires i <= |w|
    ensures var s := Inserted(w, i, c); s[..i] + s[i + 1..] == w
  {
    var s := Inserted(w, i, c);
    assert s[..i] == w[..i] && s[i + 1..] == w[i..];
  }

  /** `w` with position `i` removed. */
  function Deleted(w: string, i: nat): (s: string)
    requires i < |w|
    ensures |s| == |w| - 1
  {
    w[..i] + w[i + 1..]
  }

  /** A deletion keeps the letters before `i` in place and moves the ones
      after it down by one. */
  lemma DeletedLetters(w: string, i: nat)
    requires i < |w|
    ensures forall k :: 0 <= k < i ==> Deleted(w, i)[k] == w[k]
    ensures forall k :: i <= k < |w| - 1 ==> Deleted(w, i)[k] == w[k + 1]
  {
  }

  /** `w` with position `i` overwritten by `c`. */
  function Replaced(w: string, i: nat, c: char): (s: string)
    requires i < |w|
    ensures |s| == |w| && s[i] == c
  {
    w[i := c]
  }

  /** A replacement leaves every other position alone. */
  lemma ReplacedElsewhere(w: string, i: nat, c: char)
    requires i < |w|
    ensures forall k :: 0 <= k < |w| && k != i ==> Replaced(w, i, c)[k] == w[k]
  {
  }

  /** `w` with a space inserted before position `i`. */
  function SplitAt(w: string, i: nat): (s: string)
    requires i <= |w|
    ensures |s| == |w| + 1 && s[i] == ' '
  {
    w[..i] + " " + w[i..]
  }

  /** The two halves of a split are the two parts of the word. */
  lemma SplitHalves(w: string, i: nat)
    requires i <= |w|
    ensures SplitAt(w, i)[..i] == w[..i] && SplitAt(w, i)[i + 1..] == w[i..]
  {
    var s := SplitAt(w, i);
    assert s[..i] == w[..i];
  }

  /** `delEach` passes over position `i` when the next letter is the same. */
  predicate SkipsDeletion(w: string, i: nat)
    requires i < |w|
  {
    i + 1 < |w| && w[i] == w[i + 1]
  }

  /** Overwriting the inserted letter gives the insertion of the new one. */
  lemma InsertedOverwrite(w: string, i: nat, c: char, d: char)
    requires i <= |w|
    ensures Inserted(w, i, c)[i := d] == Inserted(w, i, d)
  {
  }

  lemma Assoc<X>(a: seq<X>, b: seq<X>, c: seq<X>)
    ensures a + b + c == a + (b + c)
  {
  }

  function Keep(s: string, words: set<string>): seq<string>
  {
    if s in words then [s] else []
  }

  // ---------------------------------------------------------------------------
  // The candidates of each kind, in the order they are emitted

  /** Swaps at positions `0 .. n - 1`. */
  function Swaps(w: string, words: set<string>, n: nat): seq<string>
    requires n < |w|
  {
    if n == 0 then [] else Swaps(w, words, n - 1) + Keep(Swapped(w, n - 1), words)
  }

  /** Insertions at position `i` of the first `m` letters of the alphabet. */
  function InsertionsAt(w: string, words: set<string>, alphabet: string, i: nat, m: nat): seq<string>
    requires i <= |w| && m <= |alphabet|
  {
    if m == 0 then [] else InsertionsAt(w, words, alphabet, i, m - 1) + Keep(Inserted(w, i, alphabet[m - 1]), words)
  }

  /** Insertions at the interior positions `1 .. n - 1`. */
  function Insertions(w: string, words: set<string>, alphabet: string, n: nat): seq<string>
    requires n <= 1 || n <= |w|
  {
    if n <= 1 then [] else Insertions(w, words, alphabet, n - 1) + InsertionsAt(w, words, alphabet, n - 1, |alphabet|)
  }

  /** Deletions at positions `0 .. n - 1`, but for the skipped ones. */
  function Deletions(w: string, words: set<string>, n: nat): seq<string>
    requires n <= |w|
  {
    if n == 0 then []
    else Deletions(w, words, n - 1) + (if SkipsDeletion(w, n - 1) then [] else Keep(Deleted(w, n - 1), words))
  }

  /** Replacements at position `i` by the first `m` letters of the alphabet. */
  function ReplacementsAt(w: string, words: set<string>, alphabet: string, i: nat, m: nat): seq<string>
    requires i < |w| && m <= |alphabet|
  {
    if m == 0 then [] else ReplacementsAt(w, words, alphabet, i, m - 1) + Keep(Replaced(w, i, alphabet[m - 1]), words)
  }

  /** Replacements at positions `0 .. n - 1`. */
  function Replacements(w: string, words: set<string>, alphabet: string, n: nat): seq<string>
    requires n <= |w|
  {
    if n == 0 then [] else Replacements(w, words, alphabet, n - 1) + ReplacementsAt(w, words, alphabet, n - 1, |alphabet|)
  }

  /** Splits at positions `1 .. n - 1` whose two halves are both words. */
  function Splits(w: string, words: set<string>, n: nat): seq<string>
    requires n <= 1 || n <= |w|
  {
    if n <= 1 then []
    else
      var i := n - 1;
      Splits(w, words, i) + (if w[..i] in words && w[i..] in words then [SplitAt(w, i)] else [])
  }

  /** All suggestions for `w`: the five kinds one after the other, with no
      duplicates removed. */
  function Suggestions(w: string, words: set<string>, alphabet: string): seq<string>
    requires |w| >= 1
  {
    Swaps(w, words, |w| - 1) + Insertions(w, words, alphabet, |w|) + Deletions(w, words, |w|)
    + Replacements(w, words, alphabet, |w|) + Splits(w, words, |w|)
  }

  // ---------------------------------------------------------------------------
  // What each kind contains

  lemma {:induction false} SwapsSpec(w: string, words: set<string>, n: nat, s: string)
    requires n < |w|
    ensures s in Swaps(w, words, n) <==> s in words && exists i :: 0 <= i < n && s == Swapped(w, i)
  {
    if n > 0 {
      SwapsSpec(w, words, n - 1, s);
    }
  }

  lemma {:induction false} InsertionsAtSound(w: string, words: set<string>, alphabet: string, i: nat, m: nat, s: string)
    requires i <= |w| && m <= |alphabet|
    requires s in InsertionsAt(w, words, alphabet, i, m)
    ensures s in words && exists j :: 0 <= j < m && s == Inserted(w, i, alphabet[j])
  {
    if m == 0 {
      assert false;
    } else {
      var c := Inserted(w, i, alphabet[m - 1]);
      assert InsertionsAt(w, words, alphabet, i, m) == InsertionsAt(w, words, alphabet, i, m - 1) + Keep(c, words);
      if s in Keep(c, words) {
        assert s in words && s == Inserted(w, i, alphabet[m - 1]);
      } else {
        InsertionsAtSound(w, words, alphabet, i, m - 1, s);
        var j :| 0 <= j < m - 1 && s == Inserted(w, i, alphabet[j]);
        assert 0 <= j < m && s == Inserted(w, i, alphabet[j]);
      }
    }
  }

  lemma {:induction false} InsertionsAtComplete(w: string, words: set<string>, alphabet: string, i: nat, m: nat, j: nat)
    requires i <= |w| && j < m <= |alphabet|
    requires Inserted(w, i, alphabet[j]) in words
    ensures Inserted(w, i, alphabet[j]) in InsertionsAt(w, words, alphabet, i, m)
  {
    var c := Inserted(w, i, alphabet[m - 1]);
    assert InsertionsAt(w, words, alphabet, i, m) == InsertionsAt(w, words, alphabet, i, m - 1) + Keep(c, words);
    if j == m - 1 {
      assert c in Keep(c, words);
    } else {
      InsertionsAtComplete(w, words, alphabet, i, m - 1, j);
    }
  }

  lemma InsertionsAtSpec(w: string, words: set<string>, alphabet: string, i: nat, m: nat, s: string)
    requires i <= |w| && m <= |alphabet|
    ensures s in InsertionsAt(w, words, alphabet, i, m) <==>
      s in words && exists j :: 0 <= j < m && s == Inserted(w, i, alphabet[j])
  {
    if s in InsertionsAt(w, words, alphabet, i, m) {
      InsertionsAtSound(w, words, alphabet, i, m, s);
    }
    if s in words && exists j :: 0 <= j < m && s == Inserted(w, i, alphabet[j]) {
      var j :| 0 <= j < m && s == Inserted(w, i, alphabet[j]);
      InsertionsAtComplete(w, words, alphabet, i, m, j);
    }
  }


  /** Every string Insertions(w, words, alphabet, n) lists is a word made by one of the edits it enumerates. */
  lemma {:induction false} InsertionsSound(w: string, words: set<string>, alphabet: string, n: nat, s: string)
    requires n <= 1 || n <= |w|
    requires s in Insertions(w, words, alphabet, n)
    ensures s in words && exists i, j :: 1 <= i < n && 0 <= j < |alphabet| && s == Inserted(w, i, alphabet[j])
  {
    if n <= 1 {
      assert false;
    } else {
      assert n <= |w|;
      var prev, here := Insertions(w, words, alphabet, n - 1), InsertionsAt(w, words, alphabet, n - 1, |alphabet|);
      assert Insertions(w, words, alphabet, n) == prev + here;
      if s in here {
        InsertionsAtSound(w, words, alphabet, n - 1, |alphabet|, s);
        var j :| 0 <= j < |alphabet| && s == Inserted(w, n - 1, alphabet[j]);
        assert 1 <= n - 1 < n && s == Inserted(w, n - 1, alphabet[j]);
      } else {
        assert s in prev;
        InsertionsSound(w, words, alphabet, n - 1, s);
        var i, j :| 1 <= i < n - 1 && 0 <= j < |alphabet| && s == Inserted(w, i, alphabet[j]);
        assert 1 <= i < n && s == Inserted(w, i, alphabet[j]);
      }
    }
  }

  /** Every edit Insertions(w, words, alphabet, n) enumerates that yields a word is listed. */
  lemma {:induction false} InsertionsComplete(w: string, words: set<string>, alphabet: string, n: nat, i: nat, j: nat)
    requires 1 <= i < n <= |w| && j < |alphabet|
    requires Inserted(w, i, alphabet[j]) in words
    ensures Inserted(w, i, alphabet[j]) in Insertions(w, words, alphabet, n)
  {
    var prev, here := Insertions(w, words, alphabet, n - 1), InsertionsAt(w, words, alphabet, n - 1, |alphabet|);
    assert Insertions(w, words, alphabet, n) == prev + here;
    if i == n - 1 {
      InsertionsAtComplete(w, words, alphabet, i, |alphabet|, j);
      assert Inserted(w, i, alphabet[j]) in here;
    } else {
      InsertionsComplete(w, words, alphabet, n - 1, i, j);
      assert Inserted(w, i, alphabet[j]) in prev;
    }
  }

  /** Insertions put one alphabet letter at an interior position only. */
  lemma InsertionsSpec(w: string, words: set<string>, alphabet: string, n: nat, s: string)
    requires n <= 1 || n <= |w|
    ensures s in Insertions(w, words, alphabet, n) <==>
      s in words && exists i, j :: 1 <= i < n && 0 <= j < |alphabet| && s == Inserted(w, i, alphabet[j])
  {
    if s in Insertions(w, words, alphabet, n) {
      InsertionsSound(w, words, alphabet, n, s);
    }
    if s in words && exists i, j :: 1 <= i < n && 0 <= j < |alphabet| && s == Inserted(w, i, alphabet[j]) {
      var i, j :| 1 <= i < n && 0 <= j < |alphabet| && s == Inserted(w, i, alphabet[j]);
      InsertionsComplete(w, words, alphabet, n, i, j);
    }
  }


  lemma {:induction false} DeletionsSpec(w: string, words: set<string>, n: nat, s: string)
    requires n <= |w|
    ensures s in Deletions(w, words, n) <==>
      s in words && exists i :: 0 <= i < n && !SkipsDeletion(w, i) && s == Deleted(w, i)
  {
    if n > 0 {
      DeletionsSpec(w, words, n - 1, s);
    }
  }

  /** Deleting either of two equal neighbours gives the same word. */
  lemma DeletedRun(w: string, i: nat)
    requires i + 1 < |w| && w[i] == w[i + 1]
    ensures Deleted(w, i) == Deleted(w, i + 1)
  {
    var a, b := Deleted(w, i), Deleted(w, i + 1);
    assert |a| == |b|;
    forall k | 0 <= k < |a| ensures a[k] == b[k] {
      if k == i {
        assert a[k] == w[i + 1] && b[k] == w[i];
      }
    }
  }

  /** Every deletion equals one at a position `delEach` does not skip: the
      last letter of its run. */
  lemma {:induction false} DeletionAtRunEnd(w: string, i: nat)
    requires i < |w|
    ensures exists i' :: i <= i' < |w| && !SkipsDeletion(w, i') && Deleted(w, i') == Deleted(w, i)
    decreases |w| - i
  {
    if SkipsDeletion(w, i) {
      DeletedRun(w, i);
      DeletionAtRunEnd(w, i + 1);
    } else {
      assert !SkipsDeletion(w, i) && Deleted(w, i) == Deleted(w, i);
    }
  }

  /** Skipping repeated letters loses no candidate: every single-letter
      deletion that is a word is suggested. */
  lemma DeletionsComplete(w: string, words: set<string>, i: nat)
    requires i < |w| && Deleted(w, i) in words
    ensures Deleted(w, i) in Deletions(w, words, |w|)
  {
    DeletionAtRunEnd(w, i);
    DeletionsSpec(w, words, |w|, Deleted(w, i));
  }

  lemma {:induction false} ReplacementsAtSound(w: string, words: set<string>, alphabet: string, i: nat, m: nat, s: string)
    requires i < |w| && m <= |alphabet|
    requires s in ReplacementsAt(w, words, alphabet, i, m)
    ensures s in words && exists j :: 0 <= j < m && s == Replaced(w, i, alphabet[j])
  {
    if m == 0 {
      assert false;
    } else {
      var c := Replaced(w, i, alphabet[m - 1]);
      assert ReplacementsAt(w, words, alphabet, i, m) == ReplacementsAt(w, words, alphabet, i, m - 1) + Keep(c, words);
      if s in Keep(c, words) {
        assert s in words && s == Replaced(w, i, alphabet[m - 1]);
      } else {
        ReplacementsAtSound(w, words, alphabet, i, m - 1, s);
        var j :| 0 <= j < m - 1 && s == Replaced(w, i, alphabet[j]);
        assert 0 <= j < m && s == Replaced(w, i, alphabet[j]);
      }
    }
  }

  lemma {:induction false} ReplacementsAtComplete(w: string, words: set<string>, alphabet: string, i: nat, m: nat, j: nat)
    requires i < |w| && j < m <= |alphabet|
    requires Replaced(w, i, alphabet[j]) in words
    ensures Replaced(w, i, alphabet[j]) in ReplacementsAt(w, words, alphabet, i, m)
  {
    var c := Replaced(w, i, alphabet[m - 1]);
    assert ReplacementsAt(w, words, alphabet, i, m) == ReplacementsAt(w, words, alphabet, i, m - 1) + Keep(c, words);
    if j == m - 1 {
      assert c in Keep(c, words);
    } else {
      ReplacementsAtComplete(w, words, alphabet, i, m - 1, j);
    }
  }

  lemma ReplacementsAtSpec(w: string, words: set<string>, alphabet: string, i: nat, m: nat, s: string)
    requires i < |w| && m <= |alphabet|
    ensures s in ReplacementsAt(w, words, alphabet, i, m) <==>
      s in words && exists j :: 0 <= j < m && s == Replaced(w, i, alphabet[j])
  {
    if s in ReplacementsAt(w, words, alphabet, i, m) {
      ReplacementsAtSound(w, words, alphabet, i, m, s);
    }
    if s in words && exists j :: 0 <= j < m && s == Replaced(w, i, alphabet[j]) {
      var j :| 0 <= j < m && s == Replaced(w, i, alphabet[j]);
      ReplacementsAtComplete(w, words, alphabet, i, m, j);
    }
  }


  /** Every string Replacements(w, words, alphabet, n) lists is a word made by one of the edits it enumerates. */
  lemma {:induction false} ReplacementsSound(w: string, words: set<string>, alphabet: string, n: nat, s: string)
    requires n <= |w|
    requires s in Replacements(w, words, alphabet, n)
    ensures s in words && exists i, j :: 0 <= i < n && 0 <= j < |alphabet| && s == Replaced(w, i, alphabet[j])
  {
    if n == 0 {
      assert false;
    } else {
      var prev, here := Replacements(w, words, alphabet, n - 1), ReplacementsAt(w, words, alphabet, n - 1, |alphabet|);
      assert Replacements(w, words, alphabet, n) == prev + here;
      if s in here {
        ReplacementsAtSound(w, words, alphabet, n - 1, |alphabet|, s);
        var j :| 0 <= j < |alphabet| && s == Replaced(w, n - 1, alphabet[j]);
        assert 0 <= n - 1 < n && s == Replaced(w, n - 1, alphabet[j]);
      } else {
        assert s in prev;
        ReplacementsSound(w, words, alphabet, n - 1, s);
        var i, j :| 0 <= i < n - 1 && 0 <= j < |alphabet| && s == Replaced(w, i, alphabet[j]);
        assert 0 <= i < n && s == Replaced(w, i, alphabet[j]);
      }
    }
  }

  /** Every edit Replacements(w, words, alphabet, n) enumerates that yields a word is listed. */
  lemma {:induction false} ReplacementsComplete(w: string, words: set<string>, alphabet: string, n: nat, i: nat, j: nat)
    requires 0 <= i < n <= |w| && j < |alphabet|
    requires Replaced(w, i, alphabet[j]) in words
    ensures Replaced(w, i, alphabet[j]) in Replacements(w, words, alphabet, n)
  {
    var prev, here := Replacements(w, words, alphabet, n - 1), ReplacementsAt(w, words, alphabet, n - 1, |alphabet|);
    assert Replacements(w, words, alphabet, n) == prev + here;
    if i == n - 1 {
      ReplacementsAtComplete(w, words, alphabet, i, |alphabet|, j);
      assert Replaced(w, i, alphabet[j]) in here;
    } else {
      ReplacementsComplete(w, words, alphabet, n - 1, i, j);
      assert Replaced(w, i, alphabet[j]) in prev;
    }
  }

  lemma ReplacementsSpec(w: string, words: set<string>, alphabet: string, n: nat, s: string)
    requires n <= |w|
    ensures s in Replacements(w, words, alphabet, n) <==>
      s in words && exists i, j :: 0 <= i < n && 0 <= j < |alphabet| && s == Replaced(w, i, alphabet[j])
  {
    if s in Replacements(w, words, alphabet, n) {
      ReplacementsSound(w, words, alphabet, n, s);
    }
    if s in words && exists i, j :: 0 <= i < n && 0 <= j < |alphabet| && s == Replaced(w, i, alphabet[j]) {
      var i, j :| 0 <= i < n && 0 <= j < |alphabet| && s == Replaced(w, i, alphabet[j]);
      ReplacementsComplete(w, words, alphabet, n, i, j);
    }
  }


  /** A split is suggested iff both its halves are words. */
  lemma {:induction false} SplitsSpec(w: string, words: set<string>, n: nat, s: string)
    requires n <= 1 || n <= |w|
    ensures s in Splits(w, words, n) <==>
      exists i :: 1 <= i < n && w[..i] in words && w[i..] in words && s == SplitAt(w, i)
  {
    if n > 1 {
      SplitsSpec(w, words, n - 1, s);
    }
  }

  /** Every suggestion but a split is in the dictionary; a split is two
      dictionary words joined by a space. */
  lemma SuggestionsAreWords(w: string, words: set<string>, alphabet: string, s: string)
    requires |w| >= 1 && s in Suggestions(w, words, alphabet)
    ensures s in words || exists i :: 1 <= i < |w| && w[..i] in words && w[i..] in words && s == SplitAt(w, i)
  {
    SwapsSpec(w, words, |w| - 1, s);
    InsertionsSpec(w, words, alphabet, |w|, s);
    DeletionsSpec(w, words, |w|, s);
    ReplacementsSpec(w, words, alphabet, |w|, s);
    SplitsSpec(w, words, |w|, s);
  }

  /** Because 'X' is listed twice, an insertion of 'X' that is a word is
      suggested twice at its position. */
  lemma InsertedXTwice(w: string, words: set<string>, i: nat)
    requires i <= |w| && Inserted(w, i, 'X') in words
    ensures multiset(InsertionsAt(w, words, ALPHABET, i, |ALPHABET|))[Inserted(w, i, 'X')] >= 2
  {
    var x := Inserted(w, i, 'X');
    assert InsertionsAt(w, words, ALPHABET, i, 24) == InsertionsAt(w, words, ALPHABET, i, 23) + [x];
    assert InsertionsAt(w, words, ALPHABET, i, 26) == InsertionsAt(w, words, ALPHABET, i, 25) + [x];
    assert multiset(InsertionsAt(w, words, ALPHABET, i, 24))[x] >= 1;
    assert multiset(InsertionsAt(w, words, ALPHABET, i, 25))[x] >= 1;
  }

  /** An insertion uses only the word's letters and the inserted one. */
  lemma InsertedLetters(w: string, i: nat, d: char)
    requires i <= |w|
    ensures forall c :: c in Inserted(w, i, d) ==> c in w || c == d
  {
    var s := Inserted(w, i, d);
    forall c | c in s ensures c in w || c == d {
      var k :| 0 <= k < |s| && s[k] == c;
      if k < i {
        assert s[k] == w[k];
      } else if k > i {
        assert s[k] == w[k - 1];
      }
    }
  }

  /** A replacement uses only the word's letters and the new one. */
  lemma ReplacedLetters(w: string, i: nat, d: char)
    requires i < |w|
    ensures forall c :: c in Replaced(w, i, d) ==> c in w || c == d
  {
    var s := Replaced(w, i, d);
    forall c | c in s ensures c in w || c == d {
      var k :| 0 <= k < |s| && s[k] == c;
      if k != i {
        assert s[k] == w[k];
      }
    }
  }

  /** An insertion or replacement suggestion uses only letters of the word
      and of the alphabet. */
  lemma CandidateLetters(w: string, words: set<string>, alphabet: string, s: string)
    requires |w| >= 1
    ensures s in Insertions(w, words, alphabet, |w|) ==> forall c :: c in s ==> c in w || c in alphabet
    ensures s in Replacements(w, words, alphabet, |w|) ==> forall c :: c in s ==> c in w || c in alphabet
  {
    if s in Insertions(w, words, alphabet, |w|) {
      InsertionsSpec(w, words, alphabet, |w|, s);
      var i, j :| 1 <= i < |w| && 0 <= j < |alphabet| && s == Inserted(w, i, alphabet[j]);
      InsertedLetters(w, i, alphabet[j]);
    }
    if s in Replacements(w, words, alphabet, |w|) {
      ReplacementsSpec(w, words, alphabet, |w|, s);
      var i, j :| 0 <= i < |w| && 0 <= j < |alphabet| && s == Replaced(w, i, alphabet[j]);
      ReplacedLetters(w, i, alphabet[j]);
    }
  }

  /** Hence no insertion or replacement suggestion has a 'Z' the word lacks. */
  lemma NoZ(w: string, words: set<string>, s: string)
    requires |w| >= 1 && 'Z' !in w
    ensures s in Insertions(w, words, ALPHABET, |w|) ==> 'Z' !in s
    ensures s in Replacements(w, words, ALPHABET, |w|) ==> 'Z' !in s
  {
    AlphabetAsWritten();
    CandidateLetters(w, words, ALPHABET, s);
  }

  /** The letters tried are upper case: "CT" gets "CAT" from an upper-case
      dictionary, while "ct" never gets "cat". */
  lemma InsertionExample()
    ensures "CAT" in Insertions("CT", {"CAT", "BAT", "AT"}, ALPHABET, 2)
    ensures "cat" !in Insertions("ct", {"cat", "bat", "at"}, ALPHABET, 2)
  {
    assert Inserted("CT", 1, ALPHABET[0]) == "CAT";
    InsertionsSpec("CT", {"CAT", "BAT", "AT"}, ALPHABET, 2, "CAT");
    InsertionsSpec("ct", {"cat", "bat", "at"}, ALPHABET, 2, "cat");
  }

  // ---------------------------------------------------------------------------
  // The checker

  class WordChecker {
    /** The dictionary, used only for membership tests. */
    const words: set<string>
    /** The letters `addChars` and `repChar` try; each spells them out as a
        local string, the same one in both. */
    const alphabet: string

    constructor (words: set<string>)
      ensures this.words == words && alphabet == ALPHABET
    {
      this.words := words;
      alphabet := ALPHABET;
    }

    /** `wordExists`: the dictionary holds the word. */
    method WordExists(word: string) returns (b: bool)
      ensures b <==> word in words
    {
      b := word in words;
    }

    /** `findSuggestions`: swaps, insertions, deletions, replacements, splits.
        The word must not be empty (see SwapAdjacent). */
    method FindSuggestions(word: string) returns (suggest: seq<string>)
      requires |word| >= 1
      ensures suggest == Suggestions(word, words, alphabet)
    {
      ghost var n := |word|;
      suggest := [];
      suggest := SwapAdjacent(word, suggest);
      assert suggest == Swaps(word, words, n - 1);
      suggest := AddChars(word, suggest);
      assert suggest == Swaps(word, words, n - 1) + Insertions(word, words, alphabet, n);
      suggest := DelEach(word, suggest);
      assert suggest == Swaps(word, words, n - 1) + Insertions(word, words, alphabet, n) + Deletions(word, words, n);
      suggest := RepChar(word, suggest);
      suggest := SplitWord(word, suggest);
    }

    /** `swapAdjacent`. Its bound `word.size() - 1` is unsigned, so the word
        must not be empty. */
    method SwapAdjacent(word: string, suggest: seq<string>) returns (suggest': seq<string>)
      requires |word| >= 1
      ensures suggest' == suggest + Swaps(word, words, |word| - 1)
    {
      suggest' := suggest;
      for i := 0 to |word| - 1
        invariant suggest' == suggest + Swaps(word, words, i)
      {
        var s := word;
        s := s[i := word[i + 1]][i + 1 := word[i]];
        Assoc(suggest, Swaps(word, words, i), Keep(s, words));
        if s in words {
          suggest' := suggest' + [s];
        }
      }
    }

    /** `addChars`: at each interior position, each alphabet letter in turn. */
    method AddChars(word: string, suggest: seq<string>) returns (suggest': seq<string>)
      ensures suggest' == suggest + Insertions(word, words, alphabet, |word|)
    {
      suggest' := suggest;
      if |word| >= 1 {
        for i := 1 to |word|
          invariant suggest' == suggest + Insertions(word, words, alphabet, i)
        {
          suggest' := InsertAtPosition(word, i, suggest');
          Assoc(suggest, Insertions(word, words, alphabet, i), InsertionsAt(word, words, alphabet, i, |alphabet|));
        }
      }
    }

    /** One pass of the outer loop of `addChars`: a placeholder is inserted
        at `i` and overwritten by each alphabet letter in turn. */
    method InsertAtPosition(word: string, i: nat, suggest: seq<string>) returns (suggest': seq<string>)
      requires 1 <= i < |word|
      ensures suggest' == suggest + InsertionsAt(word, words, alphabet, i, |alphabet|)
    {
      suggest' := suggest;
      var s := word[..i] + "0" + word[i..];
      ghost var c := '0';
      for j := 0 to |alphabet|
        invariant s == Inserted(word, i, c)
        invariant suggest' == suggest + InsertionsAt(word, words, alphabet, i, j)
      {
        InsertedOverwrite(word, i, c, alphabet[j]);
        s, c := s[i := alphabet[j]], alphabet[j];
        Assoc(suggest, InsertionsAt(word, words, alphabet, i, j), Keep(s, words));
        if s in words {
          suggest' := suggest' + [s];
        }
      }
    }

    /** `delEach`: each position, but for one followed by the same letter. */
    method DelEach(word: string, suggest: seq<string>) returns (suggest': seq<string>)
      ensures suggest' == suggest + Deletions(word, words, |word|)
    {
      suggest' := suggest;
      for i := 0 to |word|
        invariant suggest' == suggest + Deletions(word, words, i)
      {
        if i + 1 < |word| && word[i] == word[i + 1] {
          continue;
        }
        var s := word[..i] + word[i + 1..];
        Assoc(suggest, Deletions(word, words, i), Keep(s, words));
        if s in words {
          suggest' := suggest' + [s];
        }
      }
    }

    /** `repChar`: at each position, each alphabet letter in turn. */
    method RepChar(word: string, suggest: seq<string>) returns (suggest': seq<string>)
      ensures suggest' == suggest + Replacements(word, words, alphabet, |word|)
    {
      suggest' := suggest;
      for i := 0 to |word|
        invariant suggest' == suggest + Replacements(word, words, alphabet, i)
      {
        suggest' := ReplaceAtPosition(word, i, suggest');
        Assoc(suggest, Replacements(word, words, alphabet, i), ReplacementsAt(word, words, alphabet, i, |alphabet|));
      }
    }

    /** One pass of the outer loop of `repChar`: position `i` of a fresh copy
        of the word is overwritten by each alphabet letter in turn. */
    method ReplaceAtPosition(word: string, i: nat, suggest: seq<string>) returns (suggest': seq<string>)
      requires i < |word|
      ensures suggest' == suggest + ReplacementsAt(word, words, alphabet, i, |alphabet|)
    {
      suggest' := suggest;
      var s := word;
      for j := 0 to |alphabet|
        invariant |s| == |word|
        invariant forall k :: 0 <= k < |word| && k != i ==> s[k] == word[k]
        invariant suggest' == suggest + ReplacementsAt(word, words, alphabet, i, j)
      {
        s := s[i := alphabet[j]];
        assert s == Replaced(word, i, alphabet[j]);
        Assoc(suggest, ReplacementsAt(word, words, alphabet, i, j), Keep(s, words));
        if s in words {
          suggest' := suggest' + [s];
        }
      }
    }

    /** `splitWord`: a space at each interior position whose two halves are
        both words. */
    method SplitWord(word: string, suggest: seq<string>) returns (suggest': seq<string>)
      ensures suggest' == suggest + Splits(word, words, |word|)
    {
      suggest' := suggest;
      if |word| >= 1 {
        for i := 1 to |word|
          invariant suggest' == suggest + Splits(word, words, i)
        {
          ghost var step := if word[..i] in words && word[i..] in words then [SplitAt(word, i)] else [];
          Assoc(suggest, Splits(word, words, i), step);
          if word[..i] in words {
            if word[i..] in words {
              var s := word[..i] + " " + word[i..];
              suggest' := suggest' + [s];
            }
          }
        }
      }
    }
  }
}
