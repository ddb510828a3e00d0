/** A wordform generator: a per-character weight map, the derived weight of
    every inventory syllable, and rejection sampling of valid wordforms.

    The random draws are a parameter: `draws(t)` lists the inventory indices
    picked on attempt `t`. */
module Generator {
  import opened Common
  import Nvn

  /** The syllables drawn from: every V, CV, VC and CVC string over the alphabet,
      built by the same comprehensions as `Nvn.Syllables`. */
  const Syls: seq<string> := Nvn.Inventory(Nvn.Consonants, Nvn.Vowels)

  type WeightMap = map<char, real>

  /** True when every character of `syl` has a weight. */
  predicate Covers(m: WeightMap, syl: string) {
    forall j :: 0 <= j < |syl| ==> syl[j] in m
  }

  /** True when every inventory syllable can be weighted. */
  predicate CoversInventory(m: WeightMap) {
    forall i :: 0 <= i < |Syls| ==> Covers(m, Syls[i])
  }

  /** The product of the weights of the characters of `syl`, taken left to right. */
  function Prod(m: WeightMap, syl: string): real
    requires Covers(m, syl)
  {
    if syl == [] then 1.0 else Prod(m, syl[..|syl| - 1]) * m[syl[|syl| - 1]]
  }

  /** `weights` holds, position by position, the weight of each inventory syllable under `m`. */
  predicate WeightsMatch(weights: seq<real>, m: WeightMap)
    requires CoversInventory(m)
  {
    |weights| == |Syls| && forall i :: 0 <= i < |Syls| ==> weights[i] == Prod(m, Syls[i])
  }

  /** `weights` holds the weights of the first `k` inventory syllables under `m`. */
  predicate WeightsUpTo(weights: seq<real>, m: WeightMap, k: nat) {
    && k <= |Syls| && |weights| == k
    && forall i :: 0 <= i < k ==> Covers(m, Syls[i]) && weights[i] == Prod(m, Syls[i])
  }

  /** Appending the weight of the next syllable extends the prefix by one. */
  lemma WeightsUpToStep(weights: seq<real>, m: WeightMap, k: nat, w: real)
    requires WeightsUpTo(weights, m, k) && k < |Syls|
    requires Covers(m, Syls[k]) && w == Prod(m, Syls[k])
    ensures WeightsUpTo(weights + [w], m, k + 1)
  {
  }

  /** The weight map of a generator built without one: 1 for every character of the alphabet. */
  function DefaultWeightMap(): (m: WeightMap)
    ensures forall c :: c in m <==> c in Nvn.Alphabet
    ensures forall c :: c in m ==> m[c] == 1.0
  {
    map c | c in Nvn.Alphabet :: 1.0
  }

  // ---------------------------------------------------------------------------
  // Properties of syllable weights

  lemma {:induction false} ProdOfEmpty(m: WeightMap)
    ensures Prod(m, []) == 1.0
  {
  }

  /** A character of weight zero gives every syllable containing it weight zero. */
  lemma {:induction false} ZeroWeightVanishes(m: WeightMap, syl: string, j: nat)
    requires Covers(m, syl) && j < |syl| && m[syl[j]] == 0.0
    ensures Prod(m, syl) == 0.0
  {
    var last := |syl| - 1;
    if j < last {
      ZeroWeightVanishes(m, syl[..last], j);
    }
  }

  /** When every character of `syl` weighs 1, so does `syl`. */
  lemma {:induction false} UnitWeightsGiveOne(m: WeightMap, syl: string)
    requires Covers(m, syl) && forall j :: 0 <= j < |syl| ==> m[syl[j]] == 1.0
    ensures Prod(m, syl) == 1.0
  {
    if syl != [] {
      UnitWeightsGiveOne(m, syl[..|syl| - 1]);
    }
  }

  /** Every inventory syllable is written over the alphabet. */
  lemma SylsOverAlphabet(i: nat)
    requires i < |Syls|
    ensures forall j :: 0 <= j < |Syls[i]| ==> Syls[i][j] in Nvn.Alphabet
  {
    var s := Syls[i];
    Nvn.InventoryMembers(Nvn.Consonants, Nvn.Vowels, s);
    Nvn.ShapeLetters(s, Nvn.Consonants, Nvn.Vowels);
    forall j | 0 <= j < |s| ensures s[j] in Nvn.Alphabet {
      Nvn.LettersInAlphabet(s[j]);
    }
  }

  /** A weight map can weight the whole inventory exactly when it weights the alphabet. */
  lemma CoversInventoryIffAlphabet(m: WeightMap)
    ensures CoversInventory(m) <==> forall c :: c in Nvn.Alphabet ==> c in m
  {
    if forall c :: c in Nvn.Alphabet ==> c in m {
      forall i | 0 <= i < |Syls| ensures Covers(m, Syls[i]) {
        SylsOverAlphabet(i);
      }
    }
    if CoversInventory(m) {
      forall c | c in Nvn.Alphabet ensures c in m {
        if c in Nvn.Vowels {
          Nvn.InventoryMembers(Nvn.Consonants, Nvn.Vowels, [c]);
          var i :| 0 <= i < |Syls| && Syls[i] == [c];
          assert Syls[i][0] == c;
        } else {
          assert c in Nvn.Consonants;
          Nvn.InventoryMembers(Nvn.Consonants, Nvn.Vowels, [c, 'i']);
          var i :| 0 <= i < |Syls| && Syls[i] == [c, 'i'];
          assert Syls[i][0] == c;
        }
      }
    }
  }

  /** Under the default weight map every inventory syllable weighs 1. */
  lemma DefaultWeightsAreOne()
    ensures CoversInventory(DefaultWeightMap())
    ensures forall i :: 0 <= i < |Syls| ==> Prod(DefaultWeightMap(), Syls[i]) == 1.0
  {
    var m := DefaultWeightMap();
    CoversInventoryIffAlphabet(m);
    forall i | 0 <= i < |Syls| ensures Prod(m, Syls[i]) == 1.0 {
      SylsOverAlphabet(i);
      UnitWeightsGiveOne(m, Syls[i]);
    }
  }

  // ---------------------------------------------------------------------------
  // Drawing candidates

  /** A draw of `n` syllables has `max(n, 0)` entries, each of positive weight:
      an entry of weight zero is never picked. */
  predicate IsDraw(d: seq<nat>, n: int, weights: seq<real>) {
    && |d| == (if n > 0 then n else 0)
    && forall j :: 0 <= j < |d| && d[j] < |weights| ==> weights[d[j]] > 0.0
  }

  /** Every index of `d` points into the inventory. */
  predicate InInventory(d: seq<nat>) {
    forall j :: 0 <= j < |d| ==> d[j] < |Syls|
  }

  /** The candidate wordform of a draw: its syllables joined without separators. */
  function Candidate(d: seq<nat>): string
    requires InInventory(d)
  {
    Nvn.Concat(seq(|d|, j requires 0 <= j < |d| => Syls[d[j]]))
  }

  /** The message of the `ValueError` a weighted draw raises when the weights
      and the syllables differ in number. */
  const WeightCountMessage := "The number of weights does not match the population"

  /** Every attempt draws `n` syllables of positive weight. */
  ghost predicate AllDraws(draws: nat -> seq<nat>, n: int, weights: seq<real>) {
    forall t: nat :: IsDraw(draws(t), n, weights)
  }

  /** The condition that ends the sampling loop. */
  predicate Accepted(w: string, forbidden: seq<string>) {
    Nvn.IsValid(w) && w != [] && w !in forbidden
  }

  /** No attempt before `t` has an accepted candidate. */
  predicate NoneAcceptedBefore(draws: nat -> seq<nat>, t: nat, forbidden: seq<string>)
    requires forall u: nat :: InInventory(draws(u))
  {
    forall u: nat :: u < t ==> !Accepted(Candidate(draws(u)), forbidden)
  }

  /** A rejected attempt extends the run of rejected attempts by one. */
  lemma NoneAcceptedExtends(draws: nat -> seq<nat>, t: nat, forbidden: seq<string>)
    requires forall u: nat :: InInventory(draws(u))
    requires NoneAcceptedBefore(draws, t, forbidden) && !Accepted(Candidate(draws(t)), forbidden)
    ensures NoneAcceptedBefore(draws, t + 1, forbidden)
  {
  }

  /** The first attempt whose candidate is accepted. */
  predicate FirstAccepted(draws: nat -> seq<nat>, t: nat, forbidden: seq<string>)
    requires forall u: nat :: InInventory(draws(u))
  {
    Accepted(Candidate(draws(t)), forbidden) && NoneAcceptedBefore(draws, t, forbidden)
  }

  /** An accepted attempt after a run of rejected ones is the first accepted. */
  lemma FirstAcceptedAt(draws: nat -> seq<nat>, t: nat, forbidden: seq<string>)
    requires forall u: nat :: InInventory(draws(u))
    requires NoneAcceptedBefore(draws, t, forbidden) && Accepted(Candidate(draws(t)), forbidden)
    ensures FirstAccepted(draws, t, forbidden)
  {
  }

  /** An accepted candidate is the join of exactly `n` inventory syllables. */
  lemma CandidateJoinsPicks(d: seq<nat>, n: int, weights: seq<real>)
    requires InInventory(d) && IsDraw(d, n, weights) && Candidate(d) != []
    ensures exists picks: seq<string> :: |picks| == n && (forall j :: 0 <= j < n ==> picks[j] in Syls)
                                         && Candidate(d) == Nvn.Concat(picks)
  {
    var picks := seq(|d|, j requires 0 <= j < |d| => Syls[d[j]]);
    if n <= 0 {
      assert false;
    }
    assert forall j :: 0 <= j < n ==> picks[j] == Syls[d[j]];
  }

  class Generator {
    var weightMap: WeightMap
    var weights: seq<real>

    /** Stores the weight map; `New` then derives the syllable weights. */
    constructor (weightMap: WeightMap)
      ensures this.weightMap == weightMap && weights == []
    {
      this.weightMap := weightMap;
      weights := [];
    }

    /** Builds a generator from the given weight map, or from the default one,
        and derives its syllable weights; fails with the `KeyError` of an alphabet
        character the map does not weight. */
    static method New(weightMap: Option<WeightMap>) returns (r: Result<Generator, Error>)
      ensures var m := if weightMap.Some? then weightMap.value else DefaultWeightMap();
              && (r.Success? <==> CoversInventory(m))
              && (r.Success? ==> fresh(r.value) && r.value.weightMap == m && WeightsMatch(r.value.weights, m))
              && (r.Failure? ==> r.error.KeyError? && r.error.key in Nvn.Alphabet && r.error.key !in m)
    {
      var g := new Generator(if weightMap.None? then DefaultWeightMap() else weightMap.value);
      var outcome := g.UpdateWeights();
      if outcome.Fail? {
        ghost var k :| 0 <= k < |Syls| && outcome.error.key in Syls[k];
        SylsOverAlphabet(k);
        return Failure(outcome.error);
      }
      return Success(g);
    }

    /** The weight of one syllable: the product of its characters' weights, or
        the `KeyError` of its first character the map does not weight. */
    method P(syl: string) returns (r: Result<real, Error>)
      ensures r.Success? <==> Covers(weightMap, syl)
      ensures r.Success? ==> r.value == Prod(weightMap, syl)
      ensures r.Failure? ==> exists j :: 0 <= j < |syl| && r.error == KeyError(syl[j])
                                         && syl[j] !in weightMap && Covers(weightMap, syl[..j])
    {
      var prod := 1.0;
      for i := 0 to |syl|
        invariant Covers(weightMap, syl[..i])
        invariant prod == Prod(weightMap, syl[..i])
      {
        if syl[i] !in weightMap {
          return Failure(KeyError(syl[i]));
        }
        assert syl[..i + 1][..i] == syl[..i];
        prod := prod * weightMap[syl[i]];
      }
      assert syl[..|syl|] == syl;
      return Success(prod);
    }

    /** Rebuilds the syllable weights from the current weight map.  When a
        syllable cannot be weighted the weights of the syllables before it are
        left in place and its `KeyError` is returned. */
    method UpdateWeights() returns (r: Outcome<Error>)
      modifies this`weights
      ensures r.Pass? <==> CoversInventory(weightMap)
      ensures r.Pass? ==> WeightsMatch(weights, weightMap)
      ensures r.Fail? ==> exists k :: 0 <= k < |Syls| && WeightsUpTo(weights, weightMap, k) && !Covers(weightMap, Syls[k])
                                      && r.error.KeyError? && r.error.key in Syls[k] && r.error.key !in weightMap
    {
      var m := weightMap;
      var ws: seq<real> := [];
      for k := 0 to |Syls|
        invariant WeightsUpTo(ws, m, k)
      {
        var p := P(Syls[k]);
        if p.Failure? {
          ghost var j :| 0 <= j < |Syls[k]| && p.error == KeyError(Syls[k][j]) && Syls[k][j] !in m;
          assert p.error.key in Syls[k];
          weights := ws;
          return Fail(p.error);
        }
        WeightsUpToStep(ws, m, k, p.value);
        ws := ws + [p.value];
      }
      weights := ws;
      return Pass;
    }

    /** Sets the weight of one character.  The syllable weights are not touched:
        they stay stale until `UpdateWeights` runs again. */
    method SetWeight(c: char, w: real)
      modifies this`weightMap
      ensures weightMap == old(weightMap)[c := w]
      ensures weights == old(weights)
    {
      weightMap := weightMap[c := w];
    }

    /** Draws `n` syllables on each attempt, joins them, and returns the first
        candidate that is a valid, non-empty wordform not in `forbidden`.  It
        returns only if some attempt is accepted, and it reads the syllable
        weights as they are, fresh or stale; when there are not as many
        weights as inventory syllables the first draw raises a `ValueError`. */
    method Generate(n: int, forbidden: seq<string>, draws: nat -> seq<nat>) returns (r: Result<string, Error>)
      requires forall t: nat :: InInventory(draws(t))
      requires AllDraws(draws, n, weights)
      requires |weights| == |Syls| ==> exists t: nat :: Accepted(Candidate(draws(t)), forbidden)
      ensures r.Failure? <==> |weights| != |Syls|
      ensures r.Failure? ==> r.error == ValueError(WeightCountMessage)
      ensures r.Success? ==> Nvn.IsValid(r.value) && r.value != [] && r.value !in forbidden
      ensures r.Success? ==> exists t: nat :: FirstAccepted(draws, t, forbidden) && r.value == Candidate(draws(t))
      ensures r.Success? ==> exists picks: seq<string> :: |picks| == n && (forall j :: 0 <= j < n ==> picks[j] in Syls)
                                                          && r.value == Nvn.Concat(picks)
    {
      if |weights| != |Syls| {
        return Failure(ValueError(WeightCountMessage));
      }
      var wordform := Sample(n, forbidden, draws);
      return Success(wordform);
    }

    /** The sampling loop of `Generate` once the weights match the inventory:
        draws until a candidate is accepted and returns that candidate. */
    method Sample(n: int, forbidden: seq<string>, draws: nat -> seq<nat>) returns (wordform: string)
      requires |weights| == |Syls|
      requires forall t: nat :: InInventory(draws(t))
      requires AllDraws(draws, n, weights)
      requires exists t: nat :: Accepted(Candidate(draws(t)), forbidden)
      ensures Nvn.IsValid(wordform) && wordform != [] && wordform !in forbidden
      ensures exists t: nat :: FirstAccepted(draws, t, forbidden) && wordform == Candidate(draws(t))
      ensures exists picks: seq<string> :: |picks| == n && (forall j :: 0 <= j < n ==> picks[j] in Syls)
                                           && wordform == Nvn.Concat(picks)
    {
      ghost var bound: nat :| Accepted(Candidate(draws(bound)), forbidden);
      wordform := "";
      var accepted := false;
      var t: nat := 0;
      while !accepted
        invariant t <= bound + 1
        invariant !accepted ==> NoneAcceptedBefore(draws, t, forbidden)
        invariant accepted ==> t > 0 && FirstAccepted(draws, t - 1, forbidden) && wordform == Candidate(draws(t - 1))
        decreases bound + 1 - t
      {
        wordform := Candidate(draws(t));
        accepted := Accepted(wordform, forbidden);
        if accepted {
          FirstAcceptedAt(draws, t, forbidden);
        } else {
          NoneAcceptedExtends(draws, t, forbidden);
        }
        t := t + 1;
      }
      assert IsDraw(draws(t - 1), n, weights);
      CandidateJoinsPicks(draws(t - 1), n, weights);
    }
  }
}
