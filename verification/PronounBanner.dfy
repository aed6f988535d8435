/** The rewrite of a banner line's pronouns: a scan that tries four words, longest first, at
    every start of a word and copies everything else into a bounded buffer. It replaces each
    whole word of the line that is one of the four, and no other text. */
module PronounBanner {
  import opened Sequences

  // ---- characters and words ----

  /** isalpha and toupper of the C locale. */
  predicate IsAlpha(c: char) { 'A' <= c <= 'Z' || 'a' <= c <= 'z' }

  function ToUpper(c: char): char {
    if 'a' <= c <= 'z' then c - 'a' + 'A' else c
  }

  function Upper(w: string): (u: string)
    ensures |u| == |w| && forall k | 0 <= k < |w| :: u[k] == ToUpper(w[k])
  {
    seq(|w|, k requires 0 <= k < |w| => ToUpper(w[k]))
  }

  /** The end of the alphabetic run that goes on at `i`. */
  function RunEnd(text: string, i: nat): (e: nat)
    requires i <= |text|
    ensures i <= e <= |text|
    decreases |text| - i
  {
    if i < |text| && IsAlpha(text[i]) then RunEnd(text, i + 1) else i
  }

  /** The word that starts at `i`; empty if none does. */
  function WordAt(text: string, i: nat): string
    requires i <= |text|
  {
    text[i..RunEnd(text, i)]
  }

  predicate AtBoundary(text: string, i: nat)
    requires i <= |text|
  {
    i == 0 || !IsAlpha(text[i - 1])
  }

  lemma {:induction false} RunEndIs(text: string, i: nat, e: nat)
    requires i <= e <= |text| && (forall k | i <= k < e :: IsAlpha(text[k])) && (e == |text| || !IsAlpha(text[e]))
    ensures RunEnd(text, i) == e
    decreases e - i
  {
    if i < e { RunEndIs(text, i + 1, e); }
  }

  lemma {:induction false} RunIsAlphabetic(text: string, i: nat)
    requires i <= |text|
    ensures forall k | i <= k < RunEnd(text, i) :: IsAlpha(text[k])
    ensures RunEnd(text, i) == |text| || !IsAlpha(text[RunEnd(text, i)])
    decreases |text| - i
  {
    if i < |text| && IsAlpha(text[i]) { RunIsAlphabetic(text, i + 1); }
  }

  // ---- rewriting every word of a text ----

  /** Cut the text into maximal alphabetic runs and single other characters, and rewrite each
      run with `f`. */
  function Rewritten(text: string, i: nat, f: string -> string): string
    requires i <= |text|
    decreases |text| - i
  {
    if i == |text| then ""
    else if IsAlpha(text[i]) then f(WordAt(text, i)) + Rewritten(text, RunEnd(text, i), f)
    else [text[i]] + Rewritten(text, i + 1, f)
  }

  /** What is still to come when a scan is at `i`, perhaps inside a word. */
  function Rest(text: string, i: nat, f: string -> string): string
    requires i <= |text|
  {
    if AtBoundary(text, i) then Rewritten(text, i, f) else WordAt(text, i) + Rewritten(text, RunEnd(text, i), f)
  }

  /** What is done and what is still to come make up the rewritten text. */
  ghost predicate Scanned(text: string, done: string, i: nat, f: string -> string) {
    i <= |text| && Rewritten(text, 0, f) == done + Rest(text, i, f)
  }

  /** A letter of a word that `f` leaves alone begins a stretch of text that is copied. */
  lemma RestOfWord(text: string, i: nat, f: string -> string)
    requires i < |text| && IsAlpha(text[i]) && (AtBoundary(text, i) ==> f(WordAt(text, i)) == WordAt(text, i))
    ensures Rest(text, i, f) == WordAt(text, i) + Rewritten(text, RunEnd(text, i), f)
  {}

  lemma CopyLetter(text: string, i: nat, f: string -> string)
    requires i < |text| && IsAlpha(text[i])
    ensures WordAt(text, i) + Rewritten(text, RunEnd(text, i), f) == [text[i]] + Rest(text, i + 1, f)
  {
    LetterOfWord(text, i);
    Associate([text[i]], WordAt(text, i + 1), Rewritten(text, RunEnd(text, i), f));
  }

  lemma LetterOfWord(text: string, i: nat)
    requires i < |text| && IsAlpha(text[i])
    ensures RunEnd(text, i) == RunEnd(text, i + 1) && WordAt(text, i) == [text[i]] + WordAt(text, i + 1)
  {
    var e := RunEnd(text, i + 1);
    assert text[i..e] == [text[i]] + text[i + 1..e];
  }

  lemma CopyOther(text: string, i: nat, f: string -> string)
    requires i < |text| && !IsAlpha(text[i])
    ensures Rest(text, i, f) == [text[i]] + Rest(text, i + 1, f)
  {
    assert WordAt(text, i) == "";
    assert "" + Rewritten(text, i, f) == Rewritten(text, i, f);
  }

  lemma CopyKeeps(text: string, done: string, i: nat, f: string -> string)
    requires Scanned(text, done, i, f) && i < |text|
    requires AtBoundary(text, i) ==> f(WordAt(text, i)) == WordAt(text, i)
    ensures Scanned(text, done + [text[i]], i + 1, f)
  {
    if IsAlpha(text[i]) {
      RestOfWord(text, i, f);
      CopyLetter(text, i, f);
    } else {
      CopyOther(text, i, f);
    }
    Associate(done, [text[i]], Rest(text, i + 1, f));
  }

  /** After a word, the rest is what the specification makes of it. */
  lemma AfterWord(text: string, i: nat, f: string -> string)
    requires i < |text| && IsAlpha(text[i])
    ensures Rest(text, RunEnd(text, i), f) == Rewritten(text, RunEnd(text, i), f)
  {
    var e := RunEnd(text, i);
    RunIsAlphabetic(text, i);
    RunEndIs(text, e, e);
    assert text[e..e] == "";
  }

  lemma RewriteKeeps(text: string, done: string, i: nat, f: string -> string)
    requires Scanned(text, done, i, f) && i < |text| && IsAlpha(text[i]) && AtBoundary(text, i)
    ensures Scanned(text, done + f(WordAt(text, i)), RunEnd(text, i), f)
  {
    AfterWord(text, i, f);
    Associate(done, f(WordAt(text, i)), Rewritten(text, RunEnd(text, i), f));
  }

  /** The prefix of at most `n` characters. */
  function Truncated(s: string, n: nat): (t: string)
    ensures |t| <= n && t <= s && (|s| <= n ==> t == s)
  {
    if |s| <= n then s else s[..n]
  }

  /** A scan that ends, at the end of the text or of the buffer, has written what fits. */
  lemma ScanEnds(text: string, done: string, i: nat, f: string -> string, n: nat)
    requires Scanned(text, done, i, f) && (i == |text| || |done| >= n)
    ensures Truncated(done, n) == Truncated(Rewritten(text, 0, f), n)
  {
    if i == |text| { assert Rest(text, i, f) == ""; }
  }

  // ---- the pronouns ----

  /** The pronoun class of the bear; the default class leaves lines alone. */
  datatype Class = Default | She | They | It

  datatype Sub = Sub(from: string, she: string, they: string, it: string)

  const SUBS: seq<Sub> := [
    Sub("HIMSELF", "HERSELF", "THEMSELF", "ITSELF"),
    Sub("HIS", "HER", "THEIR", "ITS"),
    Sub("HIM", "HER", "THEM", "IT"),
    Sub("HE", "SHE", "THEY", "IT")
  ]

  /** sizeof(text) and sizeof(out). */
  const TEXT: nat := 192
  const OUT: nat := 256

  function Pick(s: Sub, c: Class): string {
    if c == She then s.she else if c == They then s.they else s.it
  }

  /** A whole word, with its case ignored, that is entry `j` of the table. */
  predicate Means(w: string, j: nat) {
    j < |SUBS| && Upper(w) == SUBS[j].from
  }

  /** The table as a function: what a whole word becomes. */
  function Lookup(w: string, c: Class): string {
    if Means(w, 0) then Pick(SUBS[0], c)
    else if Means(w, 1) then Pick(SUBS[1], c)
    else if Means(w, 2) then Pick(SUBS[2], c)
    else if Means(w, 3) then Pick(SUBS[3], c)
    else w
  }

  function Replacement(c: Class): string -> string {
    (w: string) => Lookup(w, c)
  }

  /** A word that is no entry of the table. */
  ghost predicate Unknown(w: string) {
    forall j: nat :: !Means(w, j)
  }

  /** `f` replaces what the table has and nothing else. */
  ghost predicate Replaces(f: string -> string, c: Class) {
    && (forall w: string, j: nat {:trigger Means(w, j)} :: Means(w, j) ==> f(w) == Pick(SUBS[j], c))
    && (forall w: string {:trigger Unknown(w)} :: Unknown(w) ==> f(w) == w)
  }

  lemma LookupMeans(w: string, j: nat, c: Class)
    requires Means(w, j)
    ensures Lookup(w, c) == Pick(SUBS[j], c)
  {
    OneEntry(w, j);
    assert j == 0 || j == 1 || j == 2 || j == 3;
  }

  lemma OneEntry(w: string, j: nat)
    requires Means(w, j)
    ensures forall k: nat | k != j :: !Means(w, k)
  {
    forall k: nat | k != j && k < |SUBS|
      ensures SUBS[k].from != SUBS[j].from
    {
      SubsDiffer(if k < j then k else j, if k < j then j else k);
    }
  }

  lemma SubsDiffer(j: nat, k: nat)
    requires j < k < |SUBS|
    ensures SUBS[j].from != SUBS[k].from
  {
    assert SUBS[1].from[2] == 'S' && SUBS[2].from[2] == 'M';
    assert |SUBS[0].from| == 7 && |SUBS[1].from| == 3 && |SUBS[2].from| == 3 && |SUBS[3].from| == 2;
  }

  lemma SubsAreLetters(j: nat)
    requires j < |SUBS|
    ensures |SUBS[j].from| > 0 && forall k | 0 <= k < |SUBS[j].from| :: 'A' <= SUBS[j].from[k] <= 'Z'
  {}

  /** What the scan tests at a position: the letters match, and no letter follows. */
  predicate Matches(text: string, i: nat, from: string)
    requires i <= |text|
  {
    && i + |from| <= |text|
    && Upper(text[i..i + |from|]) == from
    && (i + |from| == |text| || !IsAlpha(text[i + |from|]))
  }

  lemma LettersOnly(text: string, i: nat, from: string)
    requires i + |from| <= |text| && Upper(text[i..i + |from|]) == from
    requires forall k | 0 <= k < |from| :: 'A' <= from[k] <= 'Z'
    ensures forall k | i <= k < i + |from| :: IsAlpha(text[k])
  {
    forall k | i <= k < i + |from|
      ensures IsAlpha(text[k])
    {
      assert ToUpper(text[i..i + |from|][k - i]) == from[k - i];
    }
  }

  /** That is a comparison with the whole word that starts there. */
  lemma MatchesWord(text: string, i: nat, from: string)
    requires i <= |text| && |from| > 0 && forall k | 0 <= k < |from| :: 'A' <= from[k] <= 'Z'
    ensures Matches(text, i, from) <==> Upper(WordAt(text, i)) == from
    ensures Matches(text, i, from) ==> RunEnd(text, i) == i + |from| && i < |text| && IsAlpha(text[i])
  {
    RunIsAlphabetic(text, i);
    if Matches(text, i, from) {
      LettersOnly(text, i, from);
      RunEndIs(text, i, i + |from|);
    }
  }

  lemma MatchesWholeWord(text: string, i: nat, j: nat)
    requires i <= |text| && j < |SUBS|
    ensures Matches(text, i, SUBS[j].from) <==> Means(WordAt(text, i), j)
    ensures Matches(text, i, SUBS[j].from) ==> RunEnd(text, i) == i + |SUBS[j].from| && i < |text| && IsAlpha(text[i])
  {
    SubsAreLetters(j);
    MatchesWord(text, i, SUBS[j].from);
  }

  // ---- the words that are shown ----

  /** A spelling of a word, given in upper and in lower case. */
  predicate Spells(w: string, upper: string, lower: string) {
    |w| == |upper| == |lower| && forall k | 0 <= k < |w| :: w[k] == upper[k] || w[k] == lower[k]
  }

  /** What is shown for the four pronouns: a line that is one of them, whatever its case. */
  ghost predicate Column(w: string, shown: string, he: string, him: string, his: string, himself: string) {
    && (Spells(w, "HE", "he") ==> shown == he)
    && (Spells(w, "HIM", "him") ==> shown == him)
    && (Spells(w, "HIS", "his") ==> shown == his)
    && (Spells(w, "HIMSELF", "himself") ==> shown == himself)
  }

  lemma SpellsUpper(w: string, upper: string, lower: string)
    requires |upper| == |lower|
    requires forall k | 0 <= k < |upper| :: 'a' <= lower[k] <= 'z' && upper[k] == lower[k] - 'a' + 'A'
    requires Spells(w, upper, lower)
    ensures Upper(w) == upper && forall k | 0 <= k < |w| :: IsAlpha(w[k])
  {}

  lemma SpellsEntry(w: string, j: nat, upper: string, lower: string)
    requires j < |SUBS| && SUBS[j].from == upper && |upper| == |lower| > 0
    requires forall k | 0 <= k < |upper| :: 'a' <= lower[k] <= 'z' && upper[k] == lower[k] - 'a' + 'A'
    ensures Spells(w, upper, lower) ==>
              Means(w, j) && w != "" && forall k | 0 <= k < |w| :: IsAlpha(w[k])
  {
    if Spells(w, upper, lower) { SpellsUpper(w, upper, lower); }
  }

  predicate IsPronoun(w: string) {
    Spells(w, "HE", "he") || Spells(w, "HIM", "him") || Spells(w, "HIS", "his") || Spells(w, "HIMSELF", "himself")
  }

  lemma SpellsPronoun(w: string)
    ensures Spells(w, "HE", "he") ==> Means(w, 3)
    ensures Spells(w, "HIM", "him") ==> Means(w, 2)
    ensures Spells(w, "HIS", "his") ==> Means(w, 1)
    ensures Spells(w, "HIMSELF", "himself") ==> Means(w, 0)
    ensures IsPronoun(w) ==> w != "" && forall k | 0 <= k < |w| :: IsAlpha(w[k])
  {
    SpellsEntry(w, 3, "HE", "he");
    SpellsEntry(w, 2, "HIM", "him");
    SpellsEntry(w, 1, "HIS", "his");
    SpellsEntry(w, 0, "HIMSELF", "himself");
  }

  /** Every spelling of the four pronouns becomes the pronoun of the bear's class. */
  lemma PronounShown(w: string, c: Class)
    ensures c == She ==> Column(w, Lookup(w, c), "SHE", "HER", "HER", "HERSELF")
    ensures c == They ==> Column(w, Lookup(w, c), "THEY", "THEM", "THEIR", "THEMSELF")
    ensures c == It ==> Column(w, Lookup(w, c), "IT", "IT", "ITS", "ITSELF")
  {
    SpellsPronoun(w);
    if Means(w, 3) { LookupMeans(w, 3, c); }
    if Means(w, 2) { LookupMeans(w, 2, c); }
    if Means(w, 1) { LookupMeans(w, 1, c); }
    if Means(w, 0) { LookupMeans(w, 0, c); }
  }

  /** No word is two entries of the table, so the order of the entries does not matter; and
      every spelling of a pronoun becomes that of the class. */
  lemma TableIsFunction(c: Class)
    ensures Replaces(Replacement(c), c)
    ensures forall w: string :: c == She ==> Column(w, Lookup(w, c), "SHE", "HER", "HER", "HERSELF")
    ensures forall w: string :: c == They ==> Column(w, Lookup(w, c), "THEY", "THEM", "THEIR", "THEMSELF")
    ensures forall w: string :: c == It ==> Column(w, Lookup(w, c), "IT", "IT", "ITS", "ITSELF")
  {
    forall w: string, j: nat | Means(w, j)
      ensures Lookup(w, c) == Pick(SUBS[j], c)
    {
      LookupMeans(w, j, c);
    }
    forall w: string | Unknown(w)
      ensures Lookup(w, c) == w
    {
      assert !Means(w, 0) && !Means(w, 1) && !Means(w, 2) && !Means(w, 3);
    }
    forall w: string
      ensures c == She ==> Column(w, Lookup(w, c), "SHE", "HER", "HER", "HERSELF")
      ensures c == They ==> Column(w, Lookup(w, c), "THEY", "THEM", "THEIR", "THEMSELF")
      ensures c == It ==> Column(w, Lookup(w, c), "IT", "IT", "ITS", "ITSELF")
    {
      PronounShown(w, c);
    }
  }

  // ---- one word after the other ----

  /** No word goes on from `a` into `b`. */
  predicate Apart(a: string, b: string) {
    a == "" || b == "" || !IsAlpha(a[|a| - 1]) || !IsAlpha(b[0])
  }

  lemma {:induction false} RunEndShift(a: string, b: string, i: nat)
    requires i <= |b|
    ensures RunEnd(a + b, |a| + i) == |a| + RunEnd(b, i)
    decreases |b| - i
  {
    if i < |b| && IsAlpha(b[i]) { RunEndShift(a, b, i + 1); }
  }

  lemma {:induction false} RunEndFront(a: string, b: string, i: nat)
    requires i <= |a| && Apart(a, b) && (i == |a| ==> b == "" || !IsAlpha(b[0]))
    ensures RunEnd(a + b, i) == RunEnd(a, i)
    decreases |a| - i
  {
    if i < |a| && IsAlpha(a[i]) { RunEndFront(a, b, i + 1); }
  }

  lemma WordShift(a: string, b: string, i: nat)
    requires i <= |b|
    ensures RunEnd(a + b, |a| + i) == |a| + RunEnd(b, i) && WordAt(a + b, |a| + i) == WordAt(b, i)
  {
    var e := RunEnd(b, i);
    RunEndShift(a, b, i);
    assert (a + b)[|a| + i..|a| + e] == b[i..e];
  }

  lemma {:induction false} RewrittenShift(a: string, b: string, i: nat, f: string -> string)
    requires i <= |b|
    ensures Rewritten(a + b, |a| + i, f) == Rewritten(b, i, f)
    decreases |b| - i
  {
    if i < |b| {
      if IsAlpha(b[i]) {
        WordShift(a, b, i);
        RewrittenShift(a, b, RunEnd(b, i), f);
      } else {
        RewrittenShift(a, b, i + 1, f);
      }
    }
  }

  lemma {:induction false} RewrittenFront(a: string, b: string, i: nat, f: string -> string)
    requires i <= |a| && Apart(a, b)
    ensures Rewritten(a + b, i, f) == Rewritten(a, i, f) + Rewritten(b, 0, f)
    decreases |a| - i
  {
    if i == |a| {
      RewrittenShift(a, b, 0, f);
    } else if IsAlpha(a[i]) {
      var e := RunEnd(a, i);
      RunEndFront(a, b, i);
      assert (a + b)[i..e] == a[i..e];
      RewrittenFront(a, b, e, f);
      Associate(f(WordAt(a, i)), Rewritten(a, e, f), Rewritten(b, 0, f));
    } else {
      RewrittenFront(a, b, i + 1, f);
      Associate([a[i]], Rewritten(a, i + 1, f), Rewritten(b, 0, f));
    }
  }

  lemma WordAlone(w: string, f: string -> string)
    requires w != "" && forall k | 0 <= k < |w| :: IsAlpha(w[k])
    ensures Rewritten(w, 0, f) == f(w)
  {
    RunEndIs(w, 0, |w|);
    assert w[0..|w|] == w;
    assert f(w) + "" == f(w);
  }

  predicate IsLetter(c: char) {
    c in "abcdefghijklmnopqrstuvwxyz" || c in "ABCDEFGHIJKLMNOPQRSTUVWXYZ"
  }

  /** A pronoun between characters that are no letters is replaced wherever it stands in a
      line, and what stands before and behind it is rewritten as it would be alone. */
  lemma PronounInLine(a: string, w: string, b: string, c: Class)
    requires IsPronoun(w) && (a == "" || !IsLetter(a[|a| - 1])) && (b == "" || !IsLetter(b[0]))
    ensures var f := Replacement(c);
      Rewritten(a + (w + b), 0, f) == Rewritten(a, 0, f) + (Lookup(w, c) + Rewritten(b, 0, f))
    ensures c == She ==> Column(w, Lookup(w, c), "SHE", "HER", "HER", "HERSELF")
    ensures c == They ==> Column(w, Lookup(w, c), "THEY", "THEM", "THEIR", "THEMSELF")
    ensures c == It ==> Column(w, Lookup(w, c), "IT", "IT", "ITS", "ITSELF")
  {
    var f := Replacement(c);
    SpellsPronoun(w);
    PronounShown(w, c);
    LettersAreAlpha();
    RewrittenFront(a, w + b, 0, f);
    RewrittenFront(w, b, 0, f);
    WordAlone(w, f);
  }

  lemma LettersAreAlpha()
    ensures forall c: char :: IsAlpha(c) ==> IsLetter(c)
  {
    forall c: char | IsAlpha(c)
      ensures IsLetter(c)
    {
      var lower, upper := "abcdefghijklmnopqrstuvwxyz", "ABCDEFGHIJKLMNOPQRSTUVWXYZ";
      if c >= 'a' { assert lower[c as int - 'a' as int] == c; } else { assert upper[c as int - 'A' as int] == c; }
    }
  }

  lemma OneWordLine(text: string, c: Class)
    requires IsPronoun(text)
    ensures Truncated(Rewritten(text, 0, Replacement(c)), OUT - 1) == Lookup(text, c)
  {
    SpellsPronoun(text);
    WordAlone(text, Replacement(c));
    LookupShort(text, c);
  }

  lemma LookupShort(w: string, c: Class)
    requires |w| < 192
    ensures |Lookup(w, c)| < OUT
  {}

  lemma LineShown(text: string, c: Class, shown: string)
    requires shown == Truncated(Rewritten(text, 0, Replacement(c)), OUT - 1)
    ensures c == She ==> Column(text, shown, "SHE", "HER", "HER", "HERSELF")
    ensures c == They ==> Column(text, shown, "THEY", "THEM", "THEIR", "THEMSELF")
    ensures c == It ==> Column(text, shown, "IT", "IT", "ITS", "ITSELF")
  {
    PronounShown(text, c);
    if IsPronoun(text) { OneWordLine(text, c); }
  }

  // ---- the scan ----

  method MatchAt(text: string, i: nat, from: string) returns (m: bool)
    requires i <= |text|
    ensures m <==> Matches(text, i, from)
  {
    var flen := |from|;
    if i + flen > |text| { return false; }
    m := true;
    var k := 0;
    while k < flen
      invariant 0 <= k <= flen && m
      invariant forall x | 0 <= x < k :: ToUpper(text[i + x]) == from[x]
    {
      if ToUpper(text[i + k]) != from[k] {
        assert Upper(text[i..i + flen])[k] != from[k];
        return false;
      }
      k := k + 1;
    }
    assert Upper(text[i..i + flen]) == from;
    if i + flen < |text| && IsAlpha(text[i + flen]) { return false; }
  }

  /** The loop over the table at the start of a word: what to put in the word's place. */
  method FindSub(text: string, i: nat, c: Class, ghost f: string -> string) returns (found: bool, rep: string,
      flen: nat)
    requires i < |text| && Replaces(f, c)
    ensures found ==> IsAlpha(text[i]) && flen > 0 && i + flen == RunEnd(text, i) && rep == f(WordAt(text, i))
    ensures !found ==> f(WordAt(text, i)) == WordAt(text, i)
  {
    var j := 0;
    while j < |SUBS|
      invariant 0 <= j <= |SUBS| && forall k: nat | k < j :: !Means(WordAt(text, i), k)
    {
      var m := MatchAt(text, i, SUBS[j].from);
      MatchesWholeWord(text, i, j);
      if m {
        SubsAreLetters(j);
        return true, Pick(SUBS[j], c), |SUBS[j].from|;
      }
      j := j + 1;
    }
    assert Unknown(WordAt(text, i));
    return false, "", 0;
  }

  /** The copy of a replacement, as far as the buffer goes. */
  method Append(out: array<char>, o0: nat, rep: string, ghost done: string) returns (o: nat)
    requires out.Length == OUT && o0 < OUT && out[..o0] == Truncated(done, OUT - 1)
    modifies out
    ensures o < OUT && out[..o] == Truncated(done + rep, OUT - 1)
  {
    o := o0;
    var p := 0;
    while p < |rep| && o + 1 < OUT
      invariant p <= |rep| && o < OUT && out[..o] == Truncated(done + rep[..p], OUT - 1)
    {
      assert done + rep[..p + 1] == done + rep[..p] + [rep[p]];
      out[o] := rep[p];
      o := o + 1;
      p := p + 1;
    }
    if p == |rep| {
      assert rep[..p] == rep;
    } else {
      assert done + rep == done + rep[..p] + rep[p..];
    }
  }

  method ReplaceWord(text: string, i: nat, flen: nat, out: array<char>, o0: nat, rep: string,
      ghost f: string -> string, ghost done: string)
    returns (i': nat, o: nat, ghost done': string)
    requires i < |text| && out.Length == OUT && o0 < OUT && out[..o0] == Truncated(done, OUT - 1)
        && Scanned(text, done, i, f)
    requires IsAlpha(text[i]) && AtBoundary(text, i) && rep == f(WordAt(text, i)) && i + flen == RunEnd(text, i) > i
    modifies out
    ensures i < i' <= |text| && o < OUT && out[..o] == Truncated(done', OUT - 1) && Scanned(text, done', i', f)
  {
    RewriteKeeps(text, done, i, f);
    o := Append(out, o0, rep, done);
    i', done' := i + flen, done + rep;
  }

  method CopyChar(text: string, i: nat, out: array<char>, o: nat, ghost f: string -> string, ghost done: string)
    requires i < |text| && out.Length == OUT && o + 1 < OUT && out[..o] == Truncated(done, OUT - 1)
        && Scanned(text, done, i, f)
    requires AtBoundary(text, i) ==> f(WordAt(text, i)) == WordAt(text, i)
    modifies out
    ensures out[..o + 1] == Truncated(done + [text[i]], OUT - 1) && Scanned(text, done + [text[i]], i + 1, f)
  {
    CopyKeeps(text, done, i, f);
    out[o] := text[i];
  }

  /** What to put in place of a word that starts here, if one starts here. */
  method SubAt(text: string, i: nat, c: Class, ghost f: string -> string) returns (found: bool, rep: string, flen: nat)
    requires i < |text| && Replaces(f, c)
    ensures found ==>
              IsAlpha(text[i]) && AtBoundary(text, i) && i + flen == RunEnd(text, i) > i && rep == f(WordAt(text, i))
    ensures !found && AtBoundary(text, i) ==> f(WordAt(text, i)) == WordAt(text, i)
  {
    found, rep, flen := false, "", 0;
    if i == 0 || !IsAlpha(text[i - 1]) {
      found, rep, flen := FindSub(text, i, c, f);
    }
  }

  /** What a round does with what it has found. */
  method Put(text: string, i: nat, found: bool, rep: string, flen: nat, out: array<char>, o: nat,
      ghost f: string -> string, ghost done: string)
    returns (i': nat, o': nat, ghost done': string)
    requires i < |text| && out.Length == OUT && o + 1 < OUT && out[..o] == Truncated(done, OUT - 1)
    requires Scanned(text, done, i, f)
    requires found ==>
               IsAlpha(text[i]) && AtBoundary(text, i) && i + flen == RunEnd(text, i) > i && rep == f(WordAt(text, i))
    requires !found && AtBoundary(text, i) ==> f(WordAt(text, i)) == WordAt(text, i)
    modifies out
    ensures i < i' <= |text| && o' < OUT && out[..o'] == Truncated(done', OUT - 1) && Scanned(text, done', i', f)
    ensures !found ==> i' == i + 1 && done' == done + [text[i]]
  {
    if found {
      i', o', done' := ReplaceWord(text, i, flen, out, o, rep, f, done);
    } else {
      CopyChar(text, i, out, o, f, done);
      i', o', done' := i + 1, o + 1, done + [text[i]];
    }
  }

  /** One round of the scan: a whole word is replaced, or one character is copied. */
  method Round(text: string, i: nat, c: Class, out: array<char>, o: nat, ghost f: string -> string, ghost done: string)
    returns (i': nat, o': nat, replaced: bool, ghost done': string)
    requires i < |text| && out.Length == OUT && o + 1 < OUT && out[..o] == Truncated(done, OUT - 1)
    requires Replaces(f, c) && Scanned(text, done, i, f)
    modifies out
    ensures i < i' <= |text| && o' < OUT && out[..o'] == Truncated(done', OUT - 1) && Scanned(text, done', i', f)
    ensures !replaced ==> i' == i + 1 && done' == done + [text[i]]
  {
    var rep, flen;
    replaced, rep, flen := SubAt(text, i, c, f);
    i', o', done' := Put(text, i, replaced, rep, flen, out, o, f, done);
  }

  method Scan(text: string, c: Class, ghost f: string -> string) returns (shown: string)
    requires 0 < |text| < TEXT && Replaces(f, c)
    ensures shown == Truncated(Rewritten(text, 0, f), OUT - 1)
  {
    var out := new char[OUT](_ => '\0');
    var o: nat, i: nat, changed := 0, 0, false;
    ghost var done := "";
    while i < |text| && o + 1 < OUT
      invariant o < OUT && out[..o] == Truncated(done, OUT - 1) && Scanned(text, done, i, f)
      invariant !changed ==> done == text[..i]
      decreases |text| - i
    {
      var replaced;
      i, o, replaced, done := Round(text, i, c, out, o, f, done);
      changed := changed || replaced;
    }
    ScanEnds(text, done, i, f, OUT - 1);
    if !changed { return text; }
    return out[..o];
  }

  /** on_pip_string on the text it has read: the line that the game goes on to show. */
  method OnPipString(text: string, c: Class) returns (shown: string)
    requires |text| < 192
    ensures c == Default ==> shown == text
    ensures c != Default ==>
              var line := Rewritten(text, 0, Replacement(c));
              (|line| < 256 ==> shown == line) && (|line| >= 256 ==> shown == line[..255])
    ensures c == She ==> Column(text, shown, "SHE", "HER", "HER", "HERSELF")
    ensures c == They ==> Column(text, shown, "THEY", "THEM", "THEIR", "THEMSELF")
    ensures c == It ==> Column(text, shown, "IT", "IT", "ITS", "ITSELF")
  {
    if |text| == 0 || c == Default { return text; }
    TableIsFunction(c);
    shown := Scan(text, c, Replacement(c));
    LineShown(text, c, shown);
  }

  // ---- what the rewriting leaves alone ----

  /** Whether a pronoun of the table is a word of the text, from `i` on. */
  ghost predicate HasPronoun(text: string, i: nat)
    requires i <= |text|
    decreases |text| - i
  {
    i < |text| &&
    (if IsAlpha(text[i]) then !Unknown(WordAt(text, i)) || HasPronoun(text, RunEnd(text, i))
     else HasPronoun(text, i + 1))
  }

  /** A text without a pronoun is its own rewriting: other words, spaces and punctuation are
      copied as they are. */
  lemma {:induction false} NothingToRewrite(text: string, i: nat, f: string -> string, c: Class)
    requires i <= |text| && Replaces(f, c) && !HasPronoun(text, i)
    ensures Rewritten(text, i, f) == text[i..]
    decreases |text| - i
  {
    if i < |text| {
      if IsAlpha(text[i]) {
        var e := RunEnd(text, i);
        assert Unknown(WordAt(text, i));
        NothingToRewrite(text, e, f, c);
        assert text[i..] == text[i..e] + text[e..];
      } else {
        NothingToRewrite(text, i + 1, f, c);
        assert text[i..] == [text[i]] + text[i + 1..];
      }
    }
  }
}
