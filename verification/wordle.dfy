/** The candidate filter and the feedback update of the Wordle client
    (wordle/client.cpp). The client keeps three constraints between
    guesses: letters known at given positions (`correct`), letters known to
    be absent (`nonexist`), and letters known to be present but not at
    given positions (`position`). choose_word picks the first word of the
    list that meets all three; handle_marks adds what one round of marks
    teaches. */
module Wordle {

  /** `LEN`: the length of every word. */
  const Len: nat := 5

  /** The three constraint maps; std::map and std::set become a Dafny map
      and set (their iteration order does not change any result). */
  datatype Constraints = Constraints(
    correct: map<char, seq<int>>,
    nonexist: set<char>,
    position: map<char, seq<int>>)

  /** The constraints before the first guess: nothing known. */
  const Initial := Constraints(map[], {}, map[])

  // ----- The three filters of choose_word

  /** No letter of the word is known to be absent. */
  predicate AvoidsAbsent(word: string, nonexist: set<char>)
  {
    forall i :: 0 <= i < |word| ==> word[i] !in nonexist
  }

  /** Every index of idx is a valid position holding letter c. */
  predicate AllAt(word: string, c: char, idx: seq<int>)
    requires |word| == Len
  {
    forall j :: 0 <= j < |idx| ==> 0 <= idx[j] < Len && word[idx[j]] == c
  }

  /** No in-range index of idx holds letter c; out-of-range ones are ignored. */
  predicate NoneAt(word: string, c: char, idx: seq<int>)
    requires |word| == Len
  {
    forall j :: 0 <= j < |idx| ==> !(0 <= idx[j] < Len && word[idx[j]] == c)
  }

  /** Every letter of `correct` sits at each of its recorded indices. */
  predicate MatchesCorrect(word: string, correct: map<char, seq<int>>)
    requires |word| == Len
  {
    forall c :: c in correct ==> AllAt(word, c, correct[c])
  }

  /** Every letter of `position` occurs in the word, but not at any of its
      recorded indices. */
  predicate MatchesPosition(word: string, position: map<char, seq<int>>)
    requires |word| == Len
  {
    forall c :: c in position ==> c in word && NoneAt(word, c, position[c])
  }

  /** The word survives all three filters. */
  predicate Passes(word: string, k: Constraints)
    requires |word| == Len
  {
    AvoidsAbsent(word, k.nonexist) && MatchesCorrect(word, k.correct) && MatchesPosition(word, k.position)
  }

  // ----- choose_word

  /** The first loop: stop at the first letter found in `nonexist`. */
  method CheckAbsent(word: string, nonexist: set<char>) returns (ok: bool)
    ensures ok <==> AvoidsAbsent(word, nonexist)
  {
    var i := 0;
    while i < |word|
      invariant 0 <= i <= |word|
      invariant forall j :: 0 <= j < i ==> word[j] !in nonexist
    {
      if word[i] in nonexist {
        return false;
      }
      i := i + 1;
    }
    return true;
  }

  /** The second loop: every recorded index of every letter of `correct`
      must be in range and hold that letter. */
  method CheckCorrect(word: string, correct: map<char, seq<int>>) returns (ok: bool)
    requires |word| == Len
    ensures ok <==> MatchesCorrect(word, correct)
  {
    var keys := correct.Keys;
    while keys != {}
      invariant keys <= correct.Keys
      invariant forall c :: c in correct && c !in keys ==> AllAt(word, c, correct[c])
      decreases keys
    {
      var c :| c in keys;
      var idx := correct[c];
      var j := 0;
      while j < |idx|
        invariant 0 <= j <= |idx|
        invariant forall m :: 0 <= m < j ==> 0 <= idx[m] < Len && word[idx[m]] == c
      {
        if idx[j] < 0 || idx[j] >= Len || word[idx[j]] != c {
          return false;
        }
        j := j + 1;
      }
      keys := keys - {c};
    }
    return true;
  }

  /** The third loop: every letter of `position` must occur in the word and
      must not sit at any of its in-range recorded indices. */
  method CheckPosition(word: string, position: map<char, seq<int>>) returns (ok: bool)
    requires |word| == Len
    ensures ok <==> MatchesPosition(word, position)
  {
    var keys := position.Keys;
    while keys != {}
      invariant keys <= position.Keys
      invariant forall c :: c in position && c !in keys ==> c in word && NoneAt(word, c, position[c])
      decreases keys
    {
      var c :| c in keys;
      if c !in word {
        return false;
      }
      var wrong := position[c];
      var j := 0;
      while j < |wrong|
        invariant 0 <= j <= |wrong|
        invariant forall m :: 0 <= m < j ==> !(0 <= wrong[m] < Len && word[wrong[m]] == c)
      {
        if 0 <= wrong[j] < Len && word[wrong[j]] == c {
          return false;
        }
        j := j + 1;
      }
      keys := keys - {c};
    }
    return true;
  }

  /** choose_word: the first word, in list order, that passes all three
      filters, and "" when none does. */
  method ChooseWord(words: seq<string>, k: Constraints) returns (w: string)
    requires forall i :: 0 <= i < |words| ==> |words[i]| == Len
    ensures w == "" <==> forall i :: 0 <= i < |words| ==> !Passes(words[i], k)
    ensures w != "" ==>
      exists i :: 0 <= i < |words| && words[i] == w && Passes(words[i], k)
        && forall j :: 0 <= j < i ==> !Passes(words[j], k)
  {
    var i := 0;
    while i < |words|
      invariant 0 <= i <= |words|
      invariant forall j :: 0 <= j < i ==> !Passes(words[j], k)
    {
      var word := words[i];
      var ok := CheckAbsent(word, k.nonexist);
      if ok {
        ok := CheckCorrect(word, k.correct);
      }
      if ok {
        ok := CheckPosition(word, k.position);
      }
      if ok {
        assert |word| == Len;
        return word;
      }
      i := i + 1;
    }
    return "";
  }

  // ----- handle_marks

  /** `m[c]` as std::map::operator[] reads it: an absent key gives []. */
  function Get(m: map<char, seq<int>>, c: char): seq<int>
  {
    if c in m then m[c] else []
  }

  /** `m[c].push_back(i)`, creating the entry when it is missing. */
  function Push(m: map<char, seq<int>>, c: char, i: int): (r: map<char, seq<int>>)
    ensures r.Keys == m.Keys + {c}
    ensures Get(r, c) == Get(m, c) + [i]
    ensures forall d :: d != c && d in m ==> r[d] == m[d]
  {
    m[c := Get(m, c) + [i]]
  }

  /** [i] when index i holds letter c with a mark in ms, else []. */
  function Hit(word: string, marks: seq<int>, c: char, ms: set<int>, i: nat): seq<int>
    requires |word| == Len && |marks| == Len && i < Len
  {
    if word[i] == c && marks[i] in ms then [i] else []
  }

  /** The indices lo .. Len - 1, in increasing order, where the guess has
      letter c with a mark in ms. */
  function Where(word: string, marks: seq<int>, c: char, ms: set<int>, lo: nat): (r: seq<int>)
    requires |word| == Len && |marks| == Len && lo <= Len
    ensures forall j :: 0 <= j < |r| ==> lo <= r[j] < Len && word[r[j]] == c && marks[r[j]] in ms
    decreases Len - lo
  {
    if lo == Len then [] else Hit(word, marks, c, ms, lo) + Where(word, marks, c, ms, lo + 1)
  }

  predicate Increasing(s: seq<int>)
  {
    forall j, m :: 0 <= j < m < |s| ==> s[j] < s[m]
  }

  /** Where misses no index. */
  lemma {:induction false} WhereComplete(word: string, marks: seq<int>, c: char, ms: set<int>, lo: nat, i: nat)
    requires |word| == Len && |marks| == Len && lo <= i < Len
    requires word[i] == c && marks[i] in ms
    ensures i in Where(word, marks, c, ms, lo)
    decreases Len - lo
  {
    if lo < i {
      WhereComplete(word, marks, c, ms, lo + 1, i);
    }
  }

  /** Where lists its indices in strictly increasing order. */
  lemma {:induction false} WhereIncreasing(word: string, marks: seq<int>, c: char, ms: set<int>, lo: nat)
    requires |word| == Len && |marks| == Len && lo <= Len
    ensures Increasing(Where(word, marks, c, ms, lo))
    decreases Len - lo
  {
    if lo < Len {
      WhereIncreasing(word, marks, c, ms, lo + 1);
      var head, tail := Hit(word, marks, c, ms, lo), Where(word, marks, c, ms, lo + 1);
      assert Increasing(tail);
      forall j, m | 0 <= j < m < |head + tail|
        ensures (head + tail)[j] < (head + tail)[m]
      {
        assert (head + tail)[m] == tail[m - |head|];
        if j >= |head| {
          assert (head + tail)[j] == tail[j - |head|];
        } else {
          assert (head + tail)[j] == lo;
          assert lo + 1 <= tail[m - |head|];
        }
      }
      assert Where(word, marks, c, ms, lo) == head + tail;
    }
  }

  /** The first loop of handle_marks, from index lo on: each index with
      mark 2 is appended to the list of its letter in `correct`. */
  function RecordCorrect(word: string, marks: seq<int>, correct: map<char, seq<int>>, lo: nat)
    : map<char, seq<int>>
    requires |word| == Len && |marks| == Len && lo <= Len
    decreases Len - lo
  {
    if lo == Len then correct
    else
      var correct' := if marks[lo] == 2 then Push(correct, word[lo], lo) else correct;
      RecordCorrect(word, marks, correct', lo + 1)
  }

  /** The marks that send letter c's index to `position` in the second
      loop: a 1 always, a 0 when c is known present. */
  function PositionMarks(known: bool): set<int>
  {
    if known then {0, 1} else {1}
  }

  /** One index of the second loop: `nonexist` and `position` after it. */
  function OthersStep(word: string, marks: seq<int>, present: set<char>,
                      nonexist: set<char>, position: map<char, seq<int>>, lo: nat)
    : (set<char>, map<char, seq<int>>)
    requires |word| == Len && |marks| == Len && lo < Len
  {
    var c := word[lo];
    var mark := marks[lo];
    if mark == 0 && c !in present then (nonexist + {c}, position)
    else if mark == 0 || mark == 1 then (nonexist, Push(position, c, lo))
    else (nonexist, position)
  }

  /** The second loop of handle_marks, from index lo on. A 0 on a letter not
      in `present` adds the letter to `nonexist`; a 0 on a letter in
      `present`, or a 1, appends the index to the letter's `position` list;
      any other mark does nothing. As written, `present` is the set of
      letters of `correct` after the first loop. */
  function RecordOthers(word: string, marks: seq<int>, present: set<char>,
                        nonexist: set<char>, position: map<char, seq<int>>, lo: nat)
    : (set<char>, map<char, seq<int>>)
    requires |word| == Len && |marks| == Len && lo <= Len
    decreases Len - lo
  {
    if lo == Len then (nonexist, position)
    else
      var step := OthersStep(word, marks, present, nonexist, position, lo);
      RecordOthers(word, marks, present, step.0, step.1, lo + 1)
  }

  lemma AllAtAppend(word: string, c: char, a: seq<int>, b: seq<int>)
    requires |word| == Len && AllAt(word, c, a) && AllAt(word, c, b)
    ensures AllAt(word, c, a + b)
  {
    forall j | 0 <= j < |a + b|
      ensures 0 <= (a + b)[j] < Len && word[(a + b)[j]] == c
    {
      if j >= |a| {
        assert (a + b)[j] == b[j - |a|];
      }
    }
  }

  lemma NoneAtAppend(word: string, c: char, a: seq<int>, b: seq<int>)
    requires |word| == Len && NoneAt(word, c, a) && NoneAt(word, c, b)
    ensures NoneAt(word, c, a + b)
  {
    forall j | 0 <= j < |a + b|
      ensures !(0 <= (a + b)[j] < Len && word[(a + b)[j]] == c)
    {
      if j >= |a| {
        assert (a + b)[j] == b[j - |a|];
      }
    }
  }

  /** Every entry of a is kept in b: every key stays, with its list
      extended at the end. */
  predicate Extends(a: map<char, seq<int>>, b: map<char, seq<int>>)
  {
    forall c :: c in a ==> c in b && a[c] <= b[c]
  }

  /** handle_marks: both loops, as written. It only adds: every entry of
      the three constraints before the call is still there afterwards. */
  function HandleMarks(word: string, marks: seq<int>, k: Constraints): (r: Constraints)
    requires |word| == Len && |marks| == Len
    ensures Extends(k.correct, r.correct) && k.nonexist <= r.nonexist && Extends(k.position, r.position)
  {
    var correct := RecordCorrect(word, marks, k.correct, 0);
    RecordCorrectExtends(word, marks, k.correct, 0);
    var others := RecordOthers(word, marks, correct.Keys, k.nonexist, k.position, 0);
    RecordOthersExtends(word, marks, correct.Keys, k.nonexist, k.position, 0);
    Constraints(correct, others.0, others.1)
  }

  /** The letters the guess marks 1 somewhere. */
  function Hinted(word: string, marks: seq<int>): set<char>
    requires |word| == Len && |marks| == Len
  {
    set c | c in word && |Where(word, marks, c, {1}, 0)| > 0
  }

  /** handle_marks with a 0 on a letter that the same guess marks 1
      elsewhere treated like a 0 on a letter marked 2: the letter is known
      present, so the index goes to `position` and the letter stays out of
      `nonexist`. */
  function HandleMarksFixed(word: string, marks: seq<int>, k: Constraints): (r: Constraints)
    requires |word| == Len && |marks| == Len
    ensures Extends(k.correct, r.correct) && k.nonexist <= r.nonexist && Extends(k.position, r.position)
  {
    var correct := RecordCorrect(word, marks, k.correct, 0);
    RecordCorrectExtends(word, marks, k.correct, 0);
    var present := Present(word, marks, k);
    var others := RecordOthers(word, marks, present, k.nonexist, k.position, 0);
    RecordOthersExtends(word, marks, present, k.nonexist, k.position, 0);
    Constraints(correct, others.0, others.1)
  }

  // ----- Lemmas about handle_marks

  lemma ExtendsTransitive(a: map<char, seq<int>>, b: map<char, seq<int>>, c: map<char, seq<int>>)
    requires Extends(a, b) && Extends(b, c)
    ensures Extends(a, c)
  {
  }

  lemma {:induction false} RecordCorrectExtends(word: string, marks: seq<int>, correct: map<char, seq<int>>, lo: nat)
    requires |word| == Len && |marks| == Len && lo <= Len
    ensures Extends(correct, RecordCorrect(word, marks, correct, lo))
    decreases Len - lo
  {
    if lo < Len {
      var correct' := if marks[lo] == 2 then Push(correct, word[lo], lo) else correct;
      RecordCorrectExtends(word, marks, correct', lo + 1);
      ExtendsTransitive(correct, correct', RecordCorrect(word, marks, correct', lo + 1));
    }
  }

  lemma {:induction false} RecordOthersExtends(word: string, marks: seq<int>, present: set<char>,
                                               nonexist: set<char>, position: map<char, seq<int>>, lo: nat)
    requires |word| == Len && |marks| == Len && lo <= Len
    ensures var r := RecordOthers(word, marks, present, nonexist, position, lo);
      nonexist <= r.0 && Extends(position, r.1)
    decreases Len - lo
  {
    if lo < Len {
      var step := OthersStep(word, marks, present, nonexist, position, lo);
      RecordOthersExtends(word, marks, present, step.0, step.1, lo + 1);
      ExtendsTransitive(position, step.1, RecordOthers(word, marks, present, step.0, step.1, lo + 1).1);
    }
  }

  /** The first loop appends to the list of each letter c exactly the
      indices marked 2 that hold c, in increasing order. */
  lemma {:induction false} RecordCorrectSpec(word: string, marks: seq<int>, correct: map<char, seq<int>>,
                                             lo: nat, c: char)
    requires |word| == Len && |marks| == Len && lo <= Len
    ensures Get(RecordCorrect(word, marks, correct, lo), c) == Get(correct, c) + Where(word, marks, c, {2}, lo)
    ensures c in RecordCorrect(word, marks, correct, lo) <==> c in correct || |Where(word, marks, c, {2}, lo)| > 0
    decreases Len - lo
  {
    if lo == Len {
      assert Get(correct, c) + [] == Get(correct, c);
    } else {
      var correct' := if marks[lo] == 2 then Push(correct, word[lo], lo) else correct;
      var head := Hit(word, marks, c, {2}, lo);
      var tail := Where(word, marks, c, {2}, lo + 1);
      RecordCorrectSpec(word, marks, correct', lo + 1, c);
      assert Get(correct', c) == Get(correct, c) + head;
      assert c in correct' <==> c in correct || |head| > 0;
      SeqAssoc(Get(correct, c), head, tail);
    }
  }

  lemma SeqAssoc(a: seq<int>, b: seq<int>, c: seq<int>)
    ensures (a + b) + c == a + (b + c)
  {
  }

  /** The second loop: a letter joins `nonexist` exactly when it is not in
      `present` and the guess marks it 0 somewhere; the list of each letter
      in `position` grows by exactly the indices holding it with a mark in
      PositionMarks, in increasing order. */
  lemma {:induction false} RecordOthersSpec(word: string, marks: seq<int>, present: set<char>,
                                            nonexist: set<char>, position: map<char, seq<int>>, lo: nat, c: char)
    requires |word| == Len && |marks| == Len && lo <= Len
    ensures var r := RecordOthers(word, marks, present, nonexist, position, lo);
      (c in r.0 <==> c in nonexist || (c !in present && |Where(word, marks, c, {0}, lo)| > 0))
      && Get(r.1, c) == Get(position, c) + Where(word, marks, c, PositionMarks(c in present), lo)
      && (c in r.1 <==> c in position || |Where(word, marks, c, PositionMarks(c in present), lo)| > 0)
    decreases Len - lo
  {
    var ms := PositionMarks(c in present);
    if lo == Len {
      assert Get(position, c) + [] == Get(position, c);
    } else {
      var step := OthersStep(word, marks, present, nonexist, position, lo);
      RecordOthersSpec(word, marks, present, step.0, step.1, lo + 1, c);
      OthersStepSpec(word, marks, present, nonexist, position, lo, c);
      SeqAssoc(Get(position, c), Hit(word, marks, c, ms, lo), Where(word, marks, c, ms, lo + 1));
    }
  }

  lemma OthersStepSpec(word: string, marks: seq<int>, present: set<char>,
                       nonexist: set<char>, position: map<char, seq<int>>, lo: nat, c: char)
    requires |word| == Len && |marks| == Len && lo < Len
    ensures var step := OthersStep(word, marks, present, nonexist, position, lo);
      var posHead := Hit(word, marks, c, PositionMarks(c in present), lo);
      (c in step.0 <==> c in nonexist || (c !in present && |Hit(word, marks, c, {0}, lo)| > 0))
      && Get(step.1, c) == Get(position, c) + posHead
      && (c in step.1 <==> c in position || |posHead| > 0)
  {
  }

  /** What one call does to the entries of letter c, given whether the
      second loop treats c as known present: `correct` gains the indices
      marked 2; `nonexist` gains c when it is not known present and some
      index marks it 0; `position` gains the indices holding c whose mark
      is in PositionMarks(known). */
  predicate UpdatedAt(word: string, marks: seq<int>, k: Constraints, r: Constraints, c: char, known: bool)
    requires |word| == Len && |marks| == Len
  {
    Get(r.correct, c) == Get(k.correct, c) + Where(word, marks, c, {2}, 0)
    && (c in r.correct <==> c in k.correct || |Where(word, marks, c, {2}, 0)| > 0)
    && (c in r.nonexist <==> c in k.nonexist || (!known && |Where(word, marks, c, {0}, 0)| > 0))
    && Get(r.position, c) == Get(k.position, c) + Where(word, marks, c, PositionMarks(known), 0)
    && (c in r.position <==> c in k.position || |Where(word, marks, c, PositionMarks(known), 0)| > 0)
  }

  /** handle_marks as written, letter by letter: a letter counts as known
      present exactly when `correct` holds it after the first loop. */
  lemma HandleMarksSpec(word: string, marks: seq<int>, k: Constraints, c: char)
    requires |word| == Len && |marks| == Len
    ensures UpdatedAt(word, marks, k, HandleMarks(word, marks, k), c,
                      c in k.correct || |Where(word, marks, c, {2}, 0)| > 0)
  {
    var correct := RecordCorrect(word, marks, k.correct, 0);
    RecordCorrectSpec(word, marks, k.correct, 0, c);
    RecordOthersSpec(word, marks, correct.Keys, k.nonexist, k.position, 0, c);
  }

  /** Where is empty when no index qualifies. */
  lemma {:induction false} WhereEmpty(word: string, marks: seq<int>, c: char, ms: set<int>, lo: nat)
    requires |word| == Len && |marks| == Len && lo <= Len
    requires forall i :: lo <= i < Len && word[i] == c ==> marks[i] !in ms
    ensures Where(word, marks, c, ms, lo) == []
    decreases Len - lo
  {
    if lo < Len {
      WhereEmpty(word, marks, c, ms, lo + 1);
    }
  }

  // ----- The duplicate-letter finding

  /** Marks that a Wordle server could give for guess against secret:
      a 2 where the letters agree; a 1 where they differ but the letter
      occurs in the secret; a 0 where they differ and the letter either
      does not occur in the secret or is accounted for by a 1 or 2 on the
      same letter elsewhere in the guess. */
  predicate Consistent(secret: string, guess: string, marks: seq<int>)
    requires |secret| == Len && |guess| == Len && |marks| == Len
  {
    forall i :: 0 <= i < Len ==> MarkFits(secret, guess, marks, i)
  }

  /** The mark at index i is one the server could give. */
  predicate MarkFits(secret: string, guess: string, marks: seq<int>, i: nat)
    requires |secret| == Len && |guess| == Len && |marks| == Len && i < Len
  {
    (marks[i] == 2 ==> secret[i] == guess[i])
    && (marks[i] == 1 ==> secret[i] != guess[i] && guess[i] in secret)
    && (marks[i] == 0 ==>
          secret[i] != guess[i]
          && (guess[i] in secret ==> |Where(guess, marks, guess[i], {1, 2}, 0)| > 0))
  }

  /** Every letter of `correct` has at least one recorded index, as every
      entry handle_marks creates does. */
  predicate Recorded(k: Constraints)
  {
    forall c :: c in k.correct ==> |k.correct[c]| > 0
  }

  /** The guess "speed" against the secret "crane": only the first 'e' is
      marked, with a 1; the second 'e' gets a 0. */
  lemma SpeedCraneConsistent()
    ensures Consistent("crane", "speed", [0, 0, 1, 0, 0])
  {
    var secret, guess, marks := "crane", "speed", [0, 0, 1, 0, 0];
    forall i | 0 <= i < Len
      ensures MarkFits(secret, guess, marks, i)
    {
      if i == 2 || i == 3 {
        assert secret[4] == 'e';
        WhereComplete(guess, marks, 'e', {1, 2}, 0, 2);
      } else {
        assert guess[i] !in secret;
      }
    }
  }

  /** As written: after guessing "speed" against the secret "crane", whose
      marks 0 0 1 0 0 are consistent, the letter 'e' is both absent and
      present, so no word at all passes, not even the secret. */
  lemma DuplicateLetterRejectsAll(w: string)
    requires |w| == Len
    ensures Consistent("crane", "speed", [0, 0, 1, 0, 0]) && Passes("crane", Initial)
    ensures !Passes(w, HandleMarks("speed", [0, 0, 1, 0, 0], Initial))
  {
    SpeedCraneConsistent();
    SpeedMarksBothWays();
  }

  /** As written, a letter the guess marks 1 at one index and 0 at another,
      and nowhere 2, ends up both in `nonexist` and in `position`, unless
      `correct` already held it. */
  lemma MixedMarksConflict(word: string, marks: seq<int>, k: Constraints, c: char, i: nat, j: nat)
    requires |word| == Len && |marks| == Len && i < Len && j < Len
    requires word[i] == c && marks[i] == 1 && word[j] == c && marks[j] == 0
    requires c !in k.correct && forall m :: 0 <= m < Len && word[m] == c ==> marks[m] != 2
    ensures var r := HandleMarks(word, marks, k); c in r.nonexist && c in r.position
  {
    HandleMarksSpec(word, marks, k, c);
    WhereEmpty(word, marks, c, {2}, 0);
    WhereComplete(word, marks, c, {0}, 0, j);
    WhereComplete(word, marks, c, PositionMarks(false), 0, i);
  }

  /** The update for "speed" with marks 0 0 1 0 0 puts 'e' both in
      `nonexist` and in `position`. */
  lemma SpeedMarksBothWays()
    ensures var r := HandleMarks("speed", [0, 0, 1, 0, 0], Initial);
      'e' in r.nonexist && 'e' in r.position
  {
    MixedMarksConflict("speed", [0, 0, 1, 0, 0], Initial, 'e', 2, 3);
  }

  /** The letters the fixed update treats as present. */
  function Present(guess: string, marks: seq<int>, k: Constraints): set<char>
    requires |guess| == Len && |marks| == Len
  {
    RecordCorrect(guess, marks, k.correct, 0).Keys + Hinted(guess, marks)
  }

  /** Letter c is known present to the fixed update: `correct` holds it, or
      the guess marks it 2 or 1 somewhere. */
  predicate KnownFixed(word: string, marks: seq<int>, k: Constraints, c: char)
    requires |word| == Len && |marks| == Len
  {
    c in k.correct || |Where(word, marks, c, {2}, 0)| > 0 || |Where(word, marks, c, {1}, 0)| > 0
  }

  lemma PresentSpec(word: string, marks: seq<int>, k: Constraints, c: char)
    requires |word| == Len && |marks| == Len
    ensures c in Present(word, marks, k) <==> KnownFixed(word, marks, k, c)
  {
    RecordCorrectSpec(word, marks, k.correct, 0, c);
    var hinted := Where(word, marks, c, {1}, 0);
    if |hinted| > 0 {
      assert word[hinted[0]] == c;
    }
  }

  /** The fixed update, letter by letter: as written, except that a letter
      the guess marks 1 somewhere also counts as known present. */
  lemma HandleMarksFixedSpec(word: string, marks: seq<int>, k: Constraints, c: char)
    requires |word| == Len && |marks| == Len
    ensures UpdatedAt(word, marks, k, HandleMarksFixed(word, marks, k), c, KnownFixed(word, marks, k, c))
  {
    var r := HandleMarksFixed(word, marks, k);
    var present := Present(word, marks, k);
    var correct := RecordCorrect(word, marks, k.correct, 0);
    var others := RecordOthers(word, marks, present, k.nonexist, k.position, 0);
    assert r == Constraints(correct, others.0, others.1);
    RecordCorrectSpec(word, marks, k.correct, 0, c);
    PresentSpec(word, marks, k, c);
    RecordOthersSpec(word, marks, present, k.nonexist, k.position, 0, c);
  }

  /** Corrected: with a secret that meets the constraints and marks that
      are consistent with it, the secret still meets the constraints after
      the update. */
  lemma HandleMarksFixedSound(secret: string, guess: string, marks: seq<int>, k: Constraints)
    requires |secret| == Len && |guess| == Len && |marks| == Len
    requires Recorded(k) && Passes(secret, k) && Consistent(secret, guess, marks)
    ensures Recorded(HandleMarksFixed(guess, marks, k))
    ensures Passes(secret, HandleMarksFixed(guess, marks, k))
  {
    var r := HandleMarksFixed(guess, marks, k);
    forall c | c in r.correct
      ensures |r.correct[c]| > 0 && AllAt(secret, c, r.correct[c])
    {
      HandleMarksFixedSpec(guess, marks, k, c);
      FixedCorrectSound(secret, guess, marks, k, r, c);
    }
    forall i | 0 <= i < |secret|
      ensures secret[i] !in r.nonexist
    {
      HandleMarksFixedSpec(guess, marks, k, secret[i]);
      FixedAbsentSound(secret, guess, marks, k, r, secret[i]);
    }
    forall c | c in r.position
      ensures c in secret && NoneAt(secret, c, r.position[c])
    {
      HandleMarksFixedSpec(guess, marks, k, c);
      FixedPositionSound(secret, guess, marks, k, r, c);
    }
  }

  /** Every letter the fixed update treats as present occurs in the secret. */
  lemma FixedPresentSound(secret: string, guess: string, marks: seq<int>, k: Constraints, c: char)
    requires |secret| == Len && |guess| == Len && |marks| == Len
    requires Recorded(k) && MatchesCorrect(secret, k.correct) && Consistent(secret, guess, marks)
    requires KnownFixed(guess, marks, k, c)
    ensures c in secret
  {
    var i: int;
    if c in k.correct {
      i := k.correct[c][0];
      assert AllAt(secret, c, k.correct[c]);
    } else if |Where(guess, marks, c, {2}, 0)| > 0 {
      i := Where(guess, marks, c, {2}, 0)[0];
      assert MarkFits(secret, guess, marks, i);
    } else {
      i := Where(guess, marks, c, {1}, 0)[0];
      assert MarkFits(secret, guess, marks, i);
      assert guess[i] == c;
      i :| 0 <= i < Len && secret[i] == c;
    }
    assert 0 <= i < Len && secret[i] == c;
  }

  lemma FixedCorrectSound(secret: string, guess: string, marks: seq<int>, k: Constraints, r: Constraints, c: char)
    requires |secret| == Len && |guess| == Len && |marks| == Len
    requires Recorded(k) && MatchesCorrect(secret, k.correct) && Consistent(secret, guess, marks)
    requires UpdatedAt(guess, marks, k, r, c, KnownFixed(guess, marks, k, c)) && c in r.correct
    ensures |r.correct[c]| > 0 && AllAt(secret, c, r.correct[c])
  {
    var prior := Get(k.correct, c);
    var w := Where(guess, marks, c, {2}, 0);
    assert AllAt(secret, c, prior);
    assert AllAt(secret, c, w) by {
      forall j | 0 <= j < |w|
        ensures 0 <= w[j] < Len && secret[w[j]] == c
      {
        assert MarkFits(secret, guess, marks, w[j]);
      }
    }
    AllAtAppend(secret, c, prior, w);
    assert r.correct[c] == prior + w;
  }

  lemma FixedAbsentSound(secret: string, guess: string, marks: seq<int>, k: Constraints, r: Constraints, c: char)
    requires |secret| == Len && |guess| == Len && |marks| == Len
    requires AvoidsAbsent(secret, k.nonexist) && Consistent(secret, guess, marks)
    requires UpdatedAt(guess, marks, k, r, c, KnownFixed(guess, marks, k, c)) && c in secret
    ensures c !in r.nonexist
  {
    assert c !in k.nonexist by {
      var i :| 0 <= i < |secret| && secret[i] == c;
    }
    var zeros := Where(guess, marks, c, {0}, 0);
    if |zeros| > 0 {
      assert |Where(guess, marks, c, {1, 2}, 0)| > 0 by {
        assert MarkFits(secret, guess, marks, zeros[0]);
      }
      var j := Where(guess, marks, c, {1, 2}, 0)[0];
      if marks[j] == 2 {
        WhereComplete(guess, marks, c, {2}, 0, j);
      } else {
        WhereComplete(guess, marks, c, {1}, 0, j);
      }
    }
  }

  lemma FixedPositionSound(secret: string, guess: string, marks: seq<int>, k: Constraints, r: Constraints, c: char)
    requires |secret| == Len && |guess| == Len && |marks| == Len
    requires Recorded(k) && Passes(secret, k) && Consistent(secret, guess, marks)
    requires UpdatedAt(guess, marks, k, r, c, KnownFixed(guess, marks, k, c)) && c in r.position
    ensures c in secret && NoneAt(secret, c, r.position[c])
  {
    var known := KnownFixed(guess, marks, k, c);
    var prior := Get(k.position, c);
    var w := Where(guess, marks, c, PositionMarks(known), 0);
    assert c in secret by {
      if c in k.position {
        assert MatchesPosition(secret, k.position);
      } else {
        assert known;
        FixedPresentSound(secret, guess, marks, k, c);
      }
    }
    assert NoneAt(secret, c, prior) by {
      if c in k.position {
        assert MatchesPosition(secret, k.position);
      }
    }
    assert NoneAt(secret, c, w) by {
      forall j | 0 <= j < |w|
        ensures !(0 <= w[j] < Len && secret[w[j]] == c)
      {
        var i := w[j];
        assert marks[i] in PositionMarks(known);
        assert MarkFits(secret, guess, marks, i);
      }
    }
    NoneAtAppend(secret, c, prior, w);
    assert r.position[c] == prior + w;
  }
}
