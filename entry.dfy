/** A lexical entry: URI, Novan wordform and its syllables, English wordform,
    descriptions, semantic prime, and the five verb-kind flags. */
module Entry {
  import opened Common
  import Nvn

  /** The five verb kinds a verb entry may be flagged with. */
  datatype VerbKinds = VerbKinds(
    isGeneric: bool, isState: bool, isProcess: bool, isCognition: bool, isTransfer: bool)

  const NoKinds := VerbKinds(false, false, false, false, false)

  /** The message of the `ValueError` raised for an invalid wordform. */
  function InvalidFormMessage(nvn: string): string {
    "Form '" + nvn + "' is invalid in Novan."
  }

  class LexicalEntry {
    var uri: string
    var nvn: string
    var nvnSyllables: seq<string>
    var en: string
    var nvnDesc: string
    var enDesc: string
    var prime: string
    var kinds: VerbKinds

    /** An entry with every field at its default: the empty wordform (which is
        valid) and its syllabification `[""]`. */
    constructor ()
      ensures uri == "" && nvn == "" && nvnSyllables == [""]
      ensures en == "" && nvnDesc == "" && enDesc == "" && prime == "" && kinds == NoKinds
    {
      uri := "";
      nvn := "";
      nvnSyllables := Nvn.Syllabify("");
      en := "";
      nvnDesc := "";
      enDesc := "";
      prime := "";
      kinds := NoKinds;
      new;
      assert nvnSyllables == [""];
    }

    /** Builds an entry as the keyword constructor does: the wordform goes
        through `SetNvn`, so an invalid one is a `ValueError`; a non-empty
        `nvnSyllables` argument then replaces the computed syllables; every
        other field is stored as passed. */
    static method New(nvn: string, nvnSyllables: seq<string>, en: string, uri: string,
                      nvnDesc: string, enDesc: string, prime: string, kinds: VerbKinds)
      returns (r: Result<LexicalEntry, Error>)
      ensures r.Success? <==> Nvn.IsValid(nvn)
      ensures r.Failure? ==> r.error == ValueError(InvalidFormMessage(nvn))
      ensures r.Success? ==> fresh(r.value)
      ensures r.Success? ==> r.value.Holds(uri, nvn, if nvnSyllables != [] then nvnSyllables else Nvn.Syllabify(nvn),
                                           en, nvnDesc, enDesc, prime, kinds)
    {
      var e := new LexicalEntry();
      e.uri := uri;
      var outcome := e.SetNvn(nvn);
      if outcome.Fail? {
        return Failure(outcome.error);
      }
      e.KeepGivenSyllables(nvnSyllables);
      e.StoreDetails(en, nvnDesc, enDesc, prime, kinds);
      return Success(e);
    }

    /** The entry's fields hold exactly the given values. */
    ghost predicate Holds(uri: string, nvn: string, nvnSyllables: seq<string>, en: string,
                          nvnDesc: string, enDesc: string, prime: string, kinds: VerbKinds)
      reads this
    {
      && this.uri == uri && this.nvn == nvn && this.nvnSyllables == nvnSyllables && this.en == en
      && this.nvnDesc == nvnDesc && this.enDesc == enDesc && this.prime == prime && this.kinds == kinds
    }

    /** A non-empty list of syllables replaces the computed one; an empty
        list keeps it. */
    method KeepGivenSyllables(syllables: seq<string>)
      modifies this`nvnSyllables
      ensures nvnSyllables == if syllables != [] then syllables else old(nvnSyllables)
    {
      if syllables != [] {
        nvnSyllables := syllables;
      }
    }

    /** Stores the fields the constructor takes as they are. */
    method StoreDetails(en: string, nvnDesc: string, enDesc: string, prime: string, kinds: VerbKinds)
      modifies this`en, this`nvnDesc, this`enDesc, this`prime, this`kinds
      ensures this.en == en && this.nvnDesc == nvnDesc && this.enDesc == enDesc
      ensures this.prime == prime && this.kinds == kinds
    {
      this.en := en;
      this.nvnDesc := nvnDesc;
      this.enDesc := enDesc;
      this.prime := prime;
      this.kinds := kinds;
    }

    /** Sets the wordform and its syllables together when the wordform is
        valid; otherwise raises a `ValueError` and changes nothing. */
    method SetNvn(w: string) returns (r: Outcome<Error>)
      modifies this`nvn, this`nvnSyllables
      ensures r.Pass? <==> Nvn.IsValid(w)
      ensures r.Pass? ==> nvn == w && nvnSyllables == Nvn.Syllabify(w)
      ensures r.Fail? ==> && r.error == ValueError(InvalidFormMessage(w))
                          && nvn == old(nvn) && nvnSyllables == old(nvnSyllables)
    {
      if Nvn.IsValid(w) {
        nvn := w;
        nvnSyllables := Nvn.Syllabify(nvn);
        return Pass;
      }
      return Fail(ValueError(InvalidFormMessage(w)));
    }

    /** Setting the Novan description is not implemented: it always raises and
        changes nothing. */
    method SetNvnDesc(desc: string) returns (r: Outcome<Error>)
      ensures r == Fail(NotImplementedError)
    {
      return Fail(NotImplementedError);
    }
  }

  /** After a successful `SetNvn` the stored syllables are non-empty pieces of
      the shapes V, C, CV, VC and CVC that spell the wordform, and over the
      alphabet each is an inventory syllable. */
  lemma SetNvnSyllablesSpellWord(w: string)
    requires Nvn.IsValid(w) && w != []
    ensures var r := Nvn.Syllabify(w);
            && Nvn.Concat(r) == w
            && (forall j :: 0 <= j < |r| ==> r[j] != [])
            && (Nvn.OverAlphabet(w) ==> forall j :: 0 <= j < |r| ==> r[j] in Nvn.Syllables)
  {
    if Nvn.OverAlphabet(w) {
      Nvn.ValidSyllablesInInventory(w);
    }
  }
}
