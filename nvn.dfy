/** The Novan alphabet and phonotactics: which characters may follow each
    other, which strings are valid wordforms, their consonant/vowel pattern,
    their syllabification, and the inventory of syllable shapes.

    Words are arbitrary character sequences: a character outside the
    alphabet is neither a vowel nor in `Consonants`, so the validity rules
    treat it as a vowel would be treated by the consonant rules, while
    `Cvify` labels it 'C'. */
module Nvn {
  import opened Common

  // ---------------------------------------------------------------------------
  // Alphabet

  const Vowels: string := "ieaou"
  const BreathConsonant: string := "h"
  const CentralConsonants: string := "ltpf"
  const ThroatConsonants: string := "kgx"
  const NoseConsonants: string := "nm"
  const TongueConsonants: string := "zs"
  const Consonants: string :=
    BreathConsonant + CentralConsonants + ThroatConsonants + NoseConsonants + TongueConsonants
  const Alphabet: string := Consonants + Vowels

  /** The class a character belongs to; `Foreign` is everything outside the alphabet. */
  datatype SymbolClass = Vowel | Breath | Central | Throat | Nose | Tongue | Foreign

  /** The classes partition the alphabet: every character has exactly one class,
      vowels are the Vowel class and the five consonant classes make up `Consonants`. */
  function ClassOf(c: char): (k: SymbolClass)
    ensures k == Vowel <==> c in Vowels
    ensures k == Breath <==> c in BreathConsonant
    ensures k == Central <==> c in CentralConsonants
    ensures k == Throat <==> c in ThroatConsonants
    ensures k == Nose <==> c in NoseConsonants
    ensures k == Tongue <==> c in TongueConsonants
    ensures (k != Vowel && k != Foreign) <==> c in Consonants
    ensures k == Foreign <==> c !in Alphabet
  {
    if c in Vowels then Vowel
    else if c in BreathConsonant then Breath
    else if c in CentralConsonants then Central
    else if c in ThroatConsonants then Throat
    else if c in NoseConsonants then Nose
    else if c in TongueConsonants then Tongue
    else Foreign
  }

  /** True when every character of `w` belongs to the alphabet. */
  predicate OverAlphabet(w: string) {
    forall j :: 0 <= j < |w| ==> w[j] in Alphabet
  }

  // ---------------------------------------------------------------------------
  // Compatibility of adjacent characters

  /** Whether `a` may be immediately followed by `b`.  The first matching rule
      decides: a breath consonant is followed by nothing, no character is
      doubled, and no two throat, nose or tongue consonants meet. */
  function AreCompatible(a: char, b: char): bool {
    if [a] == BreathConsonant then false
    else if a == b then false
    else if (a in ThroatConsonants && b in ThroatConsonants)
         || (a in NoseConsonants && b in NoseConsonants)
         || (a in TongueConsonants && b in TongueConsonants) then false
    else true
  }

  /** Compatibility stated on symbol classes: the leader is not the breath
      consonant, the two differ, and they are not both throat, both nose or
      both tongue consonants. */
  lemma CompatibleByClass(a: char, b: char)
    ensures AreCompatible(a, b) <==>
      ClassOf(a) != Breath && a != b
      && !(ClassOf(a) == ClassOf(b) && ClassOf(a) in {Throat, Nose, Tongue})
  {
  }

  /** The relation is not symmetric: a vowel may precede 'h' but not follow it. */
  lemma CompatibilityIsAsymmetric()
    ensures AreCompatible('a', 'h') && !AreCompatible('h', 'a')
  {
  }

  // ---------------------------------------------------------------------------
  // Validity

  predicate PairCompatibility(nvn: string) {
    forall i :: 0 <= i < |nvn| - 1 ==> AreCompatible(nvn[i], nvn[i + 1])
  }

  predicate NoConsonantChain(nvn: string) {
    !exists i :: 0 <= i < |nvn| - 2 && nvn[i] in Consonants && nvn[i + 1] in Consonants && nvn[i + 2] in Consonants
  }

  predicate NoDoubleConsonant(nvn: string) {
    |nvn| < 2
    || !((nvn[0] in Consonants && nvn[1] in Consonants)
         || (nvn[|nvn| - 2] in Consonants && nvn[|nvn| - 1] in Consonants))
  }

  /** Whether `nvn` is a valid Novan wordform.  The empty word is valid, a lone
      consonant is not, a lone vowel (or a lone non-alphabet character) is, and
      the rules never look at the class of a character outside the alphabet. */
  function IsValid(nvn: string): (r: bool)
    ensures nvn == [] ==> r
    ensures |nvn| == 1 ==> (r <==> nvn[0] !in Consonants)
  {
    && !(|nvn| == 1 && nvn[0] in Consonants)
    && PairCompatibility(nvn)
    && NoConsonantChain(nvn)
    && NoDoubleConsonant(nvn)
  }

  /** The three global rules, read off a valid word one position at a time. */
  lemma ValidWordRules(nvn: string)
    requires IsValid(nvn)
    ensures forall i :: 0 <= i < |nvn| - 1 ==> AreCompatible(nvn[i], nvn[i + 1])
    ensures forall i :: 0 <= i < |nvn| - 2 ==>
      !(nvn[i] in Consonants && nvn[i + 1] in Consonants && nvn[i + 2] in Consonants)
    ensures |nvn| >= 2 ==> !(nvn[0] in Consonants && nvn[1] in Consonants)
    ensures |nvn| >= 2 ==> !(nvn[|nvn| - 2] in Consonants && nvn[|nvn| - 1] in Consonants)
  {
  }

  /** Since nothing may follow the breath consonant, 'h' can only end a valid word. */
  lemma BreathOnlyAtEnd(nvn: string)
    requires IsValid(nvn)
    ensures forall i :: 0 <= i < |nvn| - 1 ==> nvn[i] != 'h'
  {
    forall i | 0 <= i < |nvn| - 1 ensures nvn[i] != 'h' {
      assert AreCompatible(nvn[i], nvn[i + 1]);
    }
  }

  // ---------------------------------------------------------------------------
  // Consonant/vowel pattern

  /** The CV form of a word: 'V' where the character is a vowel and 'C'
      everywhere else, including characters outside the alphabet. */
  function Cvify(nvn: string): (cv: string)
    ensures |cv| == |nvn|
    ensures forall i :: 0 <= i < |nvn| ==> (cv[i] == 'V' <==> nvn[i] in Vowels)
    ensures forall i :: 0 <= i < |nvn| ==> (cv[i] == 'C' <==> nvn[i] !in Vowels)
  {
    if nvn == [] then [] else [if nvn[0] in Vowels then 'V' else 'C'] + Cvify(nvn[1..])
  }

  // ---------------------------------------------------------------------------
  // Syllabification

  /** No two adjacent positions carry the same label. */
  predicate Alternates(cv: string) {
    forall j :: 0 <= j < |cv| - 1 ==> cv[j] != cv[j + 1]
  }

  /** A V-C-V run starts at `j`. */
  predicate VcvAt(cv: string, j: nat) {
    j + 2 < |cv| && cv[j] == 'V' && cv[j + 1] == 'C' && cv[j + 2] == 'V'
  }

  /** No V-C-V run occurs. */
  predicate HasNoVcv(cv: string) {
    forall j :: 0 <= j < |cv| - 2 ==> !VcvAt(cv, j)
  }

  /** The first index at or after `from` where two equal labels meet (a CC or VV seam). */
  function FirstRepeat(cv: string, from: nat): (r: Option<nat>)
    ensures r.Some? ==> from <= r.value < |cv| - 1 && cv[r.value] == cv[r.value + 1]
    ensures r.Some? ==> forall j :: from <= j < r.value ==> cv[j] != cv[j + 1]
    ensures r.None? ==> forall j :: from <= j < |cv| - 1 ==> cv[j] != cv[j + 1]
    decreases |cv| - from
  {
    if from + 1 >= |cv| then None
    else if cv[from] == cv[from + 1] then Some(from)
    else FirstRepeat(cv, from + 1)
  }

  /** The first index at or after `from` where a V-C-V run starts. */
  function FirstVcv(cv: string, from: nat): (r: Option<nat>)
    ensures r.Some? ==> from <= r.value && VcvAt(cv, r.value)
    ensures r.Some? ==> forall j :: from <= j < r.value ==> !VcvAt(cv, j)
    ensures r.None? ==> forall j :: from <= j ==> !VcvAt(cv, j)
    decreases |cv| - from
  {
    if from + 2 >= |cv| then None
    else if VcvAt(cv, from) then Some(from)
    else FirstVcv(cv, from + 1)
  }

  /** The concatenation of a list of strings, in order, without separators. */
  function Concat(ss: seq<string>): string {
    if ss == [] then [] else ss[0] + Concat(ss[1..])
  }

  lemma {:induction false} ConcatAppend(a: seq<string>, b: seq<string>)
    ensures Concat(a + b) == Concat(a) + Concat(b)
  {
    if a == [] {
      assert a + b == b;
    } else {
      assert (a + b)[1..] == a[1..] + b;
      ConcatAppend(a[1..], b);
    }
  }

  /** Every piece has alternating labels and no V-C-V run. */
  predicate ShapedPieces(r: seq<string>) {
    forall k :: 0 <= k < |r| ==> Alternates(Cvify(r[k])) && HasNoVcv(Cvify(r[k]))
  }

  predicate NonEmptyPieces(r: seq<string>) {
    forall k :: 0 <= k < |r| ==> r[k] != []
  }

  /** Syllabifications of the two halves of `nvn` split after position `i`
      join into a syllabification of `nvn`. */
  lemma JoinHalves(nvn: string, i: nat, left: seq<string>, right: seq<string>)
    requires i + 1 < |nvn|
    requires Concat(left) == nvn[..i + 1] && Concat(right) == nvn[i + 1..]
    requires ShapedPieces(left) && ShapedPieces(right)
    requires NonEmptyPieces(left) && NonEmptyPieces(right)
    ensures Concat(left + right) == nvn
    ensures ShapedPieces(left + right) && NonEmptyPieces(left + right)
  {
    ConcatAppend(left, right);
    assert nvn[..i + 1] + nvn[i + 1..] == nvn;
  }

  /** Where `Syllabify` cuts `nvn`: after the first CC or VV seam if there is
      one, otherwise before the consonant of the first V-C-V run.  The cut
      always leaves both sides non-empty, the labels alternate up to it, a
      cut that is not at a seam is at the first V-C-V run of a word without
      seams, and a word with no cut has alternating labels and no V-C-V run. */
  function SplitPoint(nvn: string): (r: Option<nat>)
    ensures r.Some? ==> r.value + 1 < |nvn|
    ensures r.Some? ==>
      var i := r.value;
      || ((nvn[i] in Vowels <==> nvn[i + 1] in Vowels)
          && (i >= 1 ==> (nvn[i - 1] in Vowels <==> nvn[i] !in Vowels)))
      || (i + 2 < |nvn| && nvn[i] in Vowels && nvn[i + 1] !in Vowels && nvn[i + 2] in Vowels)
    ensures r.Some? ==> forall j :: 0 <= j < r.value ==> (nvn[j] in Vowels <==> nvn[j + 1] !in Vowels)
    ensures r.Some? && !(nvn[r.value] in Vowels <==> nvn[r.value + 1] in Vowels) ==>
      var cv := Cvify(nvn);
      Alternates(cv) && VcvAt(cv, r.value) && forall j :: 0 <= j < r.value ==> !VcvAt(cv, j)
    ensures r.None? ==> Alternates(Cvify(nvn)) && HasNoVcv(Cvify(nvn))
  {
    var cv := Cvify(nvn);
    match FirstRepeat(cv, 0)
    case Some(i) =>
      assert i >= 1 ==> cv[i - 1] != cv[i];
      AlternatingLetters(nvn, i);
      Some(i)
    case None =>
      var r := FirstVcv(cv, 0);
      if r.Some? then AlternatingLetters(nvn, r.value); r else r
  }

  /** Labels that alternate before position `i` are letters that switch
      between vowel and non-vowel before it. */
  lemma AlternatingLetters(nvn: string, i: nat)
    requires i < |nvn|
    requires forall j :: 0 <= j < i ==> Cvify(nvn)[j] != Cvify(nvn)[j + 1]
    ensures forall j :: 0 <= j < i ==> (nvn[j] in Vowels <==> nvn[j + 1] !in Vowels)
  {
    var cv := Cvify(nvn);
    forall j | 0 <= j < i ensures nvn[j] in Vowels <==> nvn[j + 1] !in Vowels {
      assert cv[j] != cv[j + 1];
    }
  }

  /** Splits a word into syllables: at the first CC or VV seam if there is one,
      otherwise before the consonant of the first V-C-V run (the consonant goes
      to the onset of the next syllable), otherwise not at all.  Every input,
      valid or not, is split into a non-empty list that concatenates back to it;
      no piece has two equal adjacent labels or a V-C-V run, and for a non-empty
      word no piece is empty. */
  function Syllabify(nvn: string): (r: seq<string>)
    ensures |r| >= 1
    ensures Concat(r) == nvn
    ensures nvn != [] ==> NonEmptyPieces(r)
    ensures ShapedPieces(r)
    decreases |nvn|
  {
    match SplitPoint(nvn)
    case Some(i) =>
      var left, right := Syllabify(nvn[..i + 1]), Syllabify(nvn[i + 1..]);
      JoinHalves(nvn, i, left, right);
      left + right
    case None =>
      assert Concat([nvn]) == nvn + Concat([]);
      [nvn]
  }

  /** Four alternating labels always contain a V-C-V run. */
  lemma LongAlternationHasVcv(cv: string)
    requires |cv| >= 4
    requires forall j :: 0 <= j < |cv| ==> cv[j] == 'C' || cv[j] == 'V'
    requires Alternates(cv)
    ensures !HasNoVcv(cv)
  {
    assert cv[0] != cv[1] && cv[1] != cv[2] && cv[2] != cv[3];
    if cv[0] == 'V' {
      assert VcvAt(cv, 0);
    } else {
      assert VcvAt(cv, 1);
    }
  }

  /** The CV shapes a piece with alternating labels and no V-C-V run can have. */
  lemma {:induction false} PieceShapes(cv: string)
    requires cv != []
    requires forall j :: 0 <= j < |cv| ==> cv[j] == 'C' || cv[j] == 'V'
    requires Alternates(cv) && HasNoVcv(cv)
    ensures cv == "V" || cv == "C" || cv == "CV" || cv == "VC" || cv == "CVC"
  {
    if |cv| >= 4 {
      LongAlternationHasVcv(cv);
      assert false;
    } else if |cv| == 3 {
      assert !VcvAt(cv, 0);
      assert cv == [cv[0], cv[1], cv[2]];
    } else if |cv| == 2 {
      assert cv == [cv[0], cv[1]];
    } else if |cv| == 1 {
      assert cv == [cv[0]];
    }
  }

  /** Every syllable of a non-empty word has the CV shape V, C, CV, VC or CVC. */
  lemma SyllableShapes(nvn: string)
    requires nvn != []
    ensures forall k :: 0 <= k < |Syllabify(nvn)| ==>
      Cvify(Syllabify(nvn)[k]) in ["V", "C", "CV", "VC", "CVC"]
  {
    var r := Syllabify(nvn);
    forall k | 0 <= k < |r|
      ensures Cvify(r[k]) in ["V", "C", "CV", "VC", "CVC"]
    {
      PieceShapes(Cvify(r[k]));
    }
  }

  /** Onset preference: a V-C-V word splits as V . CV, never as VC . V. */
  lemma VcvSplitsBeforeConsonant(a: char, b: char, c: char)
    requires a in Vowels && b !in Vowels && c in Vowels
    ensures Syllabify([a, b, c]) == [[a], [b, c]]
  {
    var w := [a, b, c];
    assert Cvify(w) == "VCV";
    assert FirstRepeat(Cvify(w), 0) == None;
    assert FirstVcv(Cvify(w), 0) == Some(0);
    assert w[..1] == [a] && w[1..] == [b, c];
    LoneVowelIsOneSyllable(a);
    OpenSyllableIsOneSyllable(b, c);
  }

  lemma LoneVowelIsOneSyllable(a: char)
    requires a in Vowels
    ensures Syllabify([a]) == [[a]]
  {
    assert Cvify([a]) == "V";
  }

  lemma OpenSyllableIsOneSyllable(b: char, c: char)
    requires b !in Vowels && c in Vowels
    ensures Syllabify([b, c]) == [[b, c]]
  {
    assert Cvify([b, c]) == "CV";
    assert FirstRepeat(Cvify([b, c]), 0) == None;
  }

  // ---------------------------------------------------------------------------
  // Syllable inventory

  /** `[v for v in vs]` */
  function Singles(vs: string): seq<string> {
    seq(|vs|, k requires 0 <= k < |vs| => [vs[k]])
  }

  /** `[c + v for c in cs for v in vs]` */
  function CvPairs(cs: string, vs: string): seq<string> {
    if cs == [] then []
    else seq(|vs|, j requires 0 <= j < |vs| => [cs[0], vs[j]]) + CvPairs(cs[1..], vs)
  }

  /** `[v + c for c in cs for v in vs]` */
  function VcPairs(cs: string, vs: string): seq<string> {
    if cs == [] then []
    else seq(|vs|, j requires 0 <= j < |vs| => [vs[j], cs[0]]) + VcPairs(cs[1..], vs)
  }

  /** `[c + v + cc for cc in codas for v in vs]` for one onset `c` */
  function ClosedFrom(c: char, codas: string, vs: string): seq<string> {
    if codas == [] then []
    else seq(|vs|, j requires 0 <= j < |vs| => [c, vs[j], codas[0]]) + ClosedFrom(c, codas[1..], vs)
  }

  /** `[c + v + cc for c in onsets for cc in cs for v in vs]` */
  function Closed(onsets: string, cs: string, vs: string): seq<string> {
    if onsets == [] then []
    else ClosedFrom(onsets[0], cs, vs) + Closed(onsets[1..], cs, vs)
  }

  /** The V, CV, VC and CVC syllables over consonants `cs` and vowels `vs`,
      in the order the Python comprehensions list them. */
  function Inventory(cs: string, vs: string): seq<string> {
    Singles(vs) + CvPairs(cs, vs) + VcPairs(cs, vs) + Closed(cs, cs, vs)
  }

  const Syllables: seq<string> := Inventory(Consonants, Vowels)

  /** A V, CV, VC or CVC string over consonants `cs` and vowels `vs`. */
  predicate IsSyllableShape(s: string, cs: string, vs: string) {
    || (|s| == 1 && s[0] in vs)
    || (|s| == 2 && s[0] in cs && s[1] in vs)
    || (|s| == 2 && s[0] in vs && s[1] in cs)
    || (|s| == 3 && s[0] in cs && s[1] in vs && s[2] in cs)
  }

  /** Every letter of a syllable shape comes from one of its two letter sets. */
  lemma ShapeLetters(s: string, cs: string, vs: string)
    requires IsSyllableShape(s, cs, vs)
    ensures forall j :: 0 <= j < |s| ==> s[j] in cs || s[j] in vs
  {
  }

  lemma SinglesMembers(vs: string, s: string)
    ensures s in Singles(vs) <==> |s| == 1 && s[0] in vs
  {
    if |s| == 1 && s[0] in vs {
      var k :| 0 <= k < |vs| && vs[k] == s[0];
      assert Singles(vs)[k] == s;
    }
  }

  lemma {:induction false} CvPairsMembers(cs: string, vs: string, s: string)
    ensures s in CvPairs(cs, vs) <==> |s| == 2 && s[0] in cs && s[1] in vs
  {
    if cs != [] {
      var row := seq(|vs|, j requires 0 <= j < |vs| => [cs[0], vs[j]]);
      assert CvPairs(cs, vs) == row + CvPairs(cs[1..], vs);
      CvPairsMembers(cs[1..], vs, s);
      if |s| == 2 && s[0] == cs[0] && s[1] in vs {
        var j :| 0 <= j < |vs| && vs[j] == s[1];
        assert row[j] == s;
      }
      assert s in row ==> |s| == 2 && s[0] == cs[0] && s[1] in vs;
      assert forall c :: c in cs <==> c == cs[0] || c in cs[1..];
    }
  }

  lemma {:induction false} VcPairsMembers(cs: string, vs: string, s: string)
    ensures s in VcPairs(cs, vs) <==> |s| == 2 && s[0] in vs && s[1] in cs
  {
    if cs != [] {
      var row := seq(|vs|, j requires 0 <= j < |vs| => [vs[j], cs[0]]);
      assert VcPairs(cs, vs) == row + VcPairs(cs[1..], vs);
      VcPairsMembers(cs[1..], vs, s);
      if |s| == 2 && s[1] == cs[0] && s[0] in vs {
        var j :| 0 <= j < |vs| && vs[j] == s[0];
        assert row[j] == s;
      }
      assert s in row ==> |s| == 2 && s[1] == cs[0] && s[0] in vs;
      assert forall c :: c in cs <==> c == cs[0] || c in cs[1..];
    }
  }

  lemma {:induction false} ClosedFromMembers(c: char, codas: string, vs: string, s: string)
    ensures s in ClosedFrom(c, codas, vs) <==> |s| == 3 && s[0] == c && s[1] in vs && s[2] in codas
  {
    if codas != [] {
      var row := seq(|vs|, j requires 0 <= j < |vs| => [c, vs[j], codas[0]]);
      assert ClosedFrom(c, codas, vs) == row + ClosedFrom(c, codas[1..], vs);
      ClosedFromMembers(c, codas[1..], vs, s);
      if |s| == 3 && s[0] == c && s[1] in vs && s[2] == codas[0] {
        var j :| 0 <= j < |vs| && vs[j] == s[1];
        assert row[j] == s;
      }
      assert s in row ==> |s| == 3 && s[0] == c && s[1] in vs && s[2] == codas[0];
      assert forall d :: d in codas <==> d == codas[0] || d in codas[1..];
    }
  }

  lemma {:induction false} ClosedMembers(onsets: string, cs: string, vs: string, s: string)
    ensures s in Closed(onsets, cs, vs) <==> |s| == 3 && s[0] in onsets && s[1] in vs && s[2] in cs
  {
    if onsets != [] {
      ClosedFromMembers(onsets[0], cs, vs, s);
      ClosedMembers(onsets[1..], cs, vs, s);
      assert forall d :: d in onsets <==> d == onsets[0] || d in onsets[1..];
    }
  }

  /** The inventory holds exactly the V, CV, VC and CVC strings over its alphabet. */
  lemma InventoryMembers(cs: string, vs: string, s: string)
    ensures s in Inventory(cs, vs) <==> IsSyllableShape(s, cs, vs)
  {
    SinglesMembers(vs, s);
    CvPairsMembers(cs, vs, s);
    VcPairsMembers(cs, vs, s);
    ClosedMembers(cs, cs, vs, s);
  }

  // ---------------------------------------------------------------------------
  // Syllables of valid words

  lemma LettersInAlphabet(c: char)
    requires c in Consonants || c in Vowels
    ensures c in Alphabet
  {
  }

  lemma AlphabetSplits(c: char)
    requires c in Alphabet
    ensures c in Consonants <==> c !in Vowels
  {
    var k := ClassOf(c);
  }

  lemma VowelIsNotConsonant(c: char)
    requires c in Vowels
    ensures c !in Consonants
  {
    var k := ClassOf(c);
  }

  /** A non-empty run `s` of consecutive characters of a valid word, starting
      at `lo`, is valid when its own edges obey the edge rules. */
  lemma SubwordValid(w: string, s: string, lo: nat)
    requires IsValid(w) && s != [] && lo + |s| <= |w|
    requires forall j :: 0 <= j < |s| ==> s[j] == w[lo + j]
    requires |s| == 1 ==> s[0] !in Consonants
    requires |s| >= 2 ==> !(s[0] in Consonants && s[1] in Consonants)
    requires |s| >= 2 ==> !(s[|s| - 2] in Consonants && s[|s| - 1] in Consonants)
    ensures IsValid(s)
  {
    assert PairCompatibility(s) by {
      forall i | 0 <= i < |s| - 1 ensures AreCompatible(s[i], s[i + 1]) {
        assert AreCompatible(w[lo + i], w[lo + i + 1]);
      }
    }
    assert NoConsonantChain(s) by {
      forall i | 0 <= i < |s| - 2
        ensures !(s[i] in Consonants && s[i + 1] in Consonants && s[i + 2] in Consonants)
      {
        ValidWordRules(w);
        assert lo + i < |w| - 2;
      }
    }
  }

  /** Splitting a valid word after position `i`, where `w[i]` and `w[i + 1]`
      are both vowels or both consonants and `w[i - 1]` differs from `w[i]`,
      gives two valid halves. */
  lemma HalvesAtRepeatValid(w: string, i: nat)
    requires IsValid(w) && OverAlphabet(w) && i + 1 < |w|
    requires w[i] in Vowels <==> w[i + 1] in Vowels
    requires i >= 1 ==> (w[i - 1] in Vowels <==> w[i] !in Vowels)
    ensures IsValid(w[..i + 1]) && IsValid(w[i + 1..])
  {
    PrefixAtRepeatValid(w, i);
    SuffixAtRepeatValid(w, i);
  }

  lemma PrefixAtRepeatValid(w: string, i: nat)
    requires IsValid(w) && OverAlphabet(w) && i + 1 < |w|
    requires w[i] in Vowels <==> w[i + 1] in Vowels
    requires i >= 1 ==> (w[i - 1] in Vowels <==> w[i] !in Vowels)
    ensures IsValid(w[..i + 1])
  {
    AlphabetSplits(w[i]);
    AlphabetSplits(w[i + 1]);
    if i >= 1 {
      AlphabetSplits(w[i - 1]);
    }
    SubwordValid(w, w[..i + 1], 0);
  }

  lemma SuffixAtRepeatValid(w: string, i: nat)
    requires IsValid(w) && OverAlphabet(w) && i + 1 < |w|
    requires w[i] in Vowels <==> w[i + 1] in Vowels
    ensures IsValid(w[i + 1..])
  {
    SuffixAtRepeatEdges(w, i);
    SubwordValid(w, w[i + 1..], i + 1);
  }

  /** The edges of the suffix after a CC or VV seam obey the edge rules. */
  lemma SuffixAtRepeatEdges(w: string, i: nat)
    requires IsValid(w) && OverAlphabet(w) && i + 1 < |w|
    requires w[i] in Vowels <==> w[i + 1] in Vowels
    ensures |w| - (i + 1) == 1 ==> w[i + 1] !in Consonants
    ensures |w| - (i + 1) >= 2 ==> !(w[i + 1] in Consonants && w[i + 2] in Consonants)
    ensures |w| - (i + 1) >= 2 ==> !(w[|w| - 2] in Consonants && w[|w| - 1] in Consonants)
  {
    ValidWordRules(w);
    AlphabetSplits(w[i]);
    AlphabetSplits(w[i + 1]);
    if i + 2 < |w| {
      assert !(w[i] in Consonants && w[i + 1] in Consonants && w[i + 2] in Consonants);
    }
  }

  /** Splitting a valid word before a consonant that stands between two vowels
      gives two valid halves. */
  lemma HalvesAtVcvValid(w: string, i: nat)
    requires IsValid(w) && i + 2 < |w|
    requires w[i] in Vowels && w[i + 2] in Vowels
    ensures IsValid(w[..i + 1]) && IsValid(w[i + 1..])
  {
    VowelIsNotConsonant(w[i]);
    VowelIsNotConsonant(w[i + 2]);
    SubwordValid(w, w[..i + 1], 0);
    SubwordValid(w, w[i + 1..], i + 1);
  }

  /** A valid alphabet word that `Syllabify` keeps whole has the shape of an
      inventory syllable. */
  lemma WholeWordShaped(w: string)
    requires IsValid(w) && OverAlphabet(w) && w != []
    requires Alternates(Cvify(w)) && HasNoVcv(Cvify(w))
    ensures IsSyllableShape(w, Consonants, Vowels)
  {
    var cv := Cvify(w);
    forall j | 0 <= j < |w| ensures w[j] in Consonants <==> cv[j] == 'C' {
      AlphabetSplits(w[j]);
    }
    PieceShapes(cv);
  }

  /** Both sides of the cut `Syllabify` makes in a valid alphabet word are
      valid alphabet words. */
  lemma HalvesValid(w: string, i: nat)
    requires IsValid(w) && OverAlphabet(w) && SplitPoint(w) == Some(i)
    ensures IsValid(w[..i + 1]) && OverAlphabet(w[..i + 1])
    ensures IsValid(w[i + 1..]) && OverAlphabet(w[i + 1..])
  {
    if w[i] in Vowels <==> w[i + 1] in Vowels {
      HalvesAtRepeatValid(w, i);
    } else {
      HalvesAtVcvValid(w, i);
    }
    SlicesOverAlphabet(w, i + 1);
  }

  lemma SlicesOverAlphabet(w: string, k: nat)
    requires OverAlphabet(w) && k <= |w|
    ensures OverAlphabet(w[..k]) && OverAlphabet(w[k..])
  {
    assert forall j :: 0 <= j < |w| - k ==> w[k..][j] == w[k + j];
  }

  /** The syllables of a word that `Syllabify` cuts are those of its two sides. */
  lemma SyllabifyAtCut(w: string, i: nat)
    requires SplitPoint(w) == Some(i)
    ensures Syllabify(w) == Syllabify(w[..i + 1]) + Syllabify(w[i + 1..])
  {
  }

  /** Every piece has the shape of an inventory syllable. */
  predicate SyllableShaped(r: seq<string>) {
    forall k :: 0 <= k < |r| ==> IsSyllableShape(r[k], Consonants, Vowels)
  }

  lemma SyllableShapedAppend(a: seq<string>, b: seq<string>)
    requires SyllableShaped(a) && SyllableShaped(b)
    ensures SyllableShaped(a + b)
  {
    forall k | 0 <= k < |a + b| ensures IsSyllableShape((a + b)[k], Consonants, Vowels) {
      if k < |a| {
        assert (a + b)[k] == a[k];
      } else {
        assert (a + b)[k] == b[k - |a|];
      }
    }
  }

  lemma {:induction false} ValidPiecesShaped(w: string)
    requires IsValid(w) && OverAlphabet(w) && w != []
    ensures SyllableShaped(Syllabify(w))
    decreases |w|
  {
    match SplitPoint(w)
    case Some(i) =>
      var left, right := w[..i + 1], w[i + 1..];
      HalvesValid(w, i);
      ValidPiecesShaped(left);
      ValidPiecesShaped(right);
      SyllabifyAtCut(w, i);
      SyllableShapedAppend(Syllabify(left), Syllabify(right));
    case None =>
      WholeWordShaped(w);
      assert Syllabify(w) == [w];
  }

  /** Every syllable of a valid, non-empty word over the alphabet is one of the
      inventory's V, CV, VC or CVC syllables. */
  lemma ValidSyllablesInInventory(w: string)
    requires IsValid(w) && OverAlphabet(w) && w != []
    ensures forall k :: 0 <= k < |Syllabify(w)| ==> Syllabify(w)[k] in Syllables
  {
    var r := Syllabify(w);
    ValidPiecesShaped(w);
    forall k | 0 <= k < |r| ensures r[k] in Syllables {
      InventoryMembers(Consonants, Vowels, r[k]);
    }
  }
}
