# Novan lexicon editor: phonology core in Dafny

This project models the phonology engine of the Novan constructed-language editor, together with the entry and verb-list state built on it.

- **Alphabet and phonotactics** (module `Nvn`, pure functions and lemmas):
  - the five vowels and the twelve consonants in breath, central, throat, nose and tongue classes;
  - the ordered adjacency rule `are_compatible`;
  - the whole-word predicate `is_valid`;
  - the consonant/vowel labelling `cvify`;
  - the recursive splitter `syllabify`;
  - the syllable inventory `SYLLABLES`.

  Words are arbitrary character sequences, as in the source. `is_valid` counts a character as a consonant only when it is in `CONSONANTS`, while `cvify` labels every non-vowel `C`.
- **Weighted generator** (module `Generator`): a class holding the `weight_map` and the derived `weights`. It has:
  - the per-syllable product loop `p`;
  - `update_weights`;
  - the rejection-sampling loop `generate`. The random draws of each attempt are a parameter.
- **Lexical entry** (module `Entry`): a class whose constructor goes through `set_nvn`.
  - `set_nvn` either commits the wordform and its syllables together or raises `ValueError` and changes nothing.
  - `set_nvn_desc` always raises `NotImplementedError`.
- **Verb list** (modules `Text`, `Sorting`, `VerbList`):
  - labels built from each verb, with the completion-rate and prime-tag prefixes;
  - filtering by the stripped, lower-cased search string;
  - the stable sort by label;
  - the controller state `current_verbs`, the displayed labels, `current_verb` and the list selection;
  - the operations `filter_verbs`, `select_event` and the selection step of `refresh`.
- Python's `strip`, `lower`, `in` on strings and `<=` on strings are modelled in `Text`. The `sorted(..., key=...)` call is an insertion sort proved stable in `Sorting`.
- Raised exceptions become `Result`/`Outcome` values carrying an `Error` (`ValueError`, `KeyError`, `NotImplementedError`), as defined in `common.dfy`.

## Model

| member | source | states |
|---|---|---|
| Nvn.ClassOf | model/nvn.py:4-11 | The character classes partition the characters. A character is a vowel iff it is in VOWELS, in each consonant class iff it is in that class's string, a consonant iff it is in CONSONANTS, and foreign iff it is outside ALPHABET. |
| Nvn.AlphabetSplits | model/nvn.py:10-11 | A character of ALPHABET is a consonant exactly when it is not a vowel. |
| Nvn.VowelIsNotConsonant | model/nvn.py:4-10 | No vowel is a consonant. |
| Nvn.AreCompatible | model/nvn.py:18-40 | `are_compatible`: the first matching rule decides (breath consonant first, then a doubled character, then two throat, nose or tongue consonants). `Nvn.CompatibleByClass` characterises it in both directions. |
| Nvn.CompatibleByClass | model/nvn.py:18-40 | `are_compatible(a, b)` holds iff `a` is not the breath consonant, `a != b`, and the two are not both throat, both nose or both tongue consonants. Both directions are stated. |
| Nvn.CompatibilityIsAsymmetric | model/nvn.py:28-29 | `('a', 'h')` is compatible but `('h', 'a')` is not, so the relation is ordered. |
| Nvn.IsValid | model/nvn.py:42-66 | The empty word is valid. A one-character word is valid exactly when that character is not in CONSONANTS, so a lone vowel or a lone non-alphabet character is valid. |
| Nvn.ValidWordRules | model/nvn.py:56-64 | A valid word has every adjacent pair compatible and never three consecutive characters in CONSONANTS. For length at least 2, neither its first two nor its last two characters are both consonants. |
| Nvn.BreathOnlyAtEnd | model/nvn.py:56 | Because nothing may follow 'h', 'h' occurs in a valid word only as the last character. |
| Nvn.Cvify | model/nvn.py:68-78 | The label string has the word's length. Position i is 'V' iff the character is in VOWELS and 'C' otherwise, including characters outside the alphabet. |
| Nvn.FirstRepeat | model/nvn.py:95-96 | Returns the first index at or after `from` where two equal labels meet; None exactly when there is none. |
| Nvn.FirstVcv | model/nvn.py:100-101 | Returns the first index at or after `from` where a V-C-V run starts; None exactly when there is none. |
| Nvn.SplitPoint | model/nvn.py:92-103 | A cut leaves both halves non-empty, and the labels alternate at every position before it. The cut is either at a CC or VV seam, which is then the first seam, or before the consonant of a V-C-V run. In the second case the word has no seam at all and the run is its first. With no cut the labels alternate and contain no V-C-V run. |
| Nvn.Syllabify | model/nvn.py:80-104 | For every input the result is a non-empty list that concatenates back to the input. Every piece has alternating labels and no V-C-V run. For a non-empty input no piece is empty. Termination is proved because every cut shortens both halves. |
| Nvn.PieceShapes | model/nvn.py:95-104 | A non-empty label string with alternating labels and no V-C-V run is V, C, CV, VC or CVC. |
| Nvn.SyllableShapes | model/nvn.py:80-104 | Every syllable of a non-empty word has the CV shape V, C, CV, VC or CVC. |
| Nvn.VcvSplitsBeforeConsonant | model/nvn.py:99-102 | A vowel-consonant-vowel word splits as `[V, CV]`: the consonant is the onset of the second syllable, never the coda of the first. |
| Nvn.LoneVowelIsOneSyllable | model/nvn.py:104 | A lone vowel is returned whole as its only syllable. |
| Nvn.OpenSyllableIsOneSyllable | model/nvn.py:104 | A consonant followed by a vowel is returned whole as its only syllable. |
| Nvn.Inventory | model/nvn.py:13-16 | The `SYLLABLES` list (the constant `Nvn.Syllables`), built by the same comprehensions in the same nesting order. `Nvn.InventoryMembers` characterises its entries in both directions. |
| Nvn.SinglesMembers | model/nvn.py:13 | A string is in `list(VOWELS)` iff it is one vowel. |
| Nvn.CvPairsMembers | model/nvn.py:14 | A string is in the CV comprehension iff it is a consonant followed by a vowel. |
| Nvn.VcPairsMembers | model/nvn.py:15 | A string is in the VC comprehension iff it is a vowel followed by a consonant. |
| Nvn.ClosedFromMembers | model/nvn.py:16 | For one onset, a string is in the CVC comprehension's row iff it is that onset, a vowel and a consonant. |
| Nvn.ClosedMembers | model/nvn.py:16 | A string is in the CVC comprehension iff it is consonant, vowel, consonant. |
| Nvn.InventoryMembers | model/nvn.py:13-16 | A string is in SYLLABLES (and in the generator's SYLS, the same construction) iff it is V, CV, VC or CVC over CONSONANTS and VOWELS. |
| Nvn.HalvesAtRepeatValid | model/nvn.py:95-97 | Cutting a valid alphabet word at its first CC or VV seam leaves two valid halves. |
| Nvn.PrefixAtRepeatValid | model/nvn.py:97 | The left half of that cut is valid. |
| Nvn.SuffixAtRepeatValid | model/nvn.py:97 | The right half of that cut is valid. |
| Nvn.HalvesAtVcvValid | model/nvn.py:100-102 | Cutting a valid word before the consonant of a V-C-V run leaves two valid halves. |
| Nvn.HalvesValid | model/nvn.py:92-102 | Both sides of the cut `syllabify` makes in a valid alphabet word are valid alphabet words. |
| Nvn.WholeWordShaped | model/nvn.py:104 | A valid, non-empty alphabet word that `syllabify` keeps whole is V, CV, VC or CVC over the alphabet. |
| Nvn.SyllabifyAtCut | model/nvn.py:97-102 | The syllables of a cut word are those of its left half followed by those of its right half. |
| Nvn.ValidPiecesShaped | model/nvn.py:80-104 | Every syllable of a valid, non-empty alphabet word is V, CV, VC or CVC over the alphabet. |
| Nvn.ValidSyllablesInInventory | model/nvn.py:80-104 | Every syllable of a valid, non-empty alphabet word is an entry of SYLLABLES. |
| Generator.SylsOverAlphabet | model/generator.py:8-11 | Every SYLS entry is written over ALPHABET. |
| Generator.CoversInventoryIffAlphabet | model/generator.py:48-52 | Every SYLS entry can be weighted (so `update_weights` raises no `KeyError`) iff every ALPHABET character has a weight. Both directions are stated. |
| Generator.DefaultWeightMap | model/generator.py:25-26 | The default map has exactly the ALPHABET characters as keys, each with weight 1. |
| Generator.DefaultWeightsAreOne | model/generator.py:25-29 | Under the default map every inventory syllable can be weighted and weighs 1. |
| Generator.Prod | model/generator.py:63-66 | The product `p` computes: the weights of the syllable's characters multiplied left to right from 1. `Generator.Generator.P` is proved to return it, and `ProdOfEmpty`, `ZeroWeightVanishes` and `UnitWeightsGiveOne` state its properties. |
| Generator.ProdOfEmpty | model/generator.py:63-66 | `p("")` is 1. |
| Generator.ZeroWeightVanishes | model/generator.py:63-66 | A character of weight 0 gives every syllable containing it weight 0. |
| Generator.UnitWeightsGiveOne | model/generator.py:63-66 | A syllable whose characters all weigh 1 weighs 1. |
| Generator.WeightsUpToStep | model/generator.py:50-52 | Appending the next syllable's weight extends the weighted prefix of the inventory by one. |
| Generator.CandidateJoinsPicks | model/generator.py:43-45 | A non-empty candidate of a draw is the join of exactly `n` SYLS entries. |
| Generator.Generator.constructor | model/generator.py:25-28 | The given map is stored as is. |
| Generator.Generator.New | model/generator.py:18-29 | Construction succeeds iff the chosen map (given or default) weights every inventory syllable. It then stores the map and `weights[i] == p(SYLS[i])` for every i. Otherwise it fails with the `KeyError` of an ALPHABET character missing from the map. |
| Generator.Generator.P | model/generator.py:54-66 | Returns the left-to-right product of the weights of the syllable's characters. When a character has no weight it raises the `KeyError` of the first such character. |
| Generator.Generator.UpdateWeights | model/generator.py:48-52 | On success, `weights` has one entry per SYLS entry, each equal to its product. On a `KeyError`, `weights` holds the products of the syllables before the failing one, and the key is a character of that syllable that has no weight. The weight map is untouched. |
| Generator.Generator.SetWeight | ctrl/generator.py:104-106 | Changes one character's weight and leaves `weights` as it was: stale until `UpdateWeights` runs. |
| Generator.Generator.Generate | model/generator.py:31-46 | When the weights and SYLS differ in number, the first draw raises `ValueError`. Otherwise it returns the first accepted candidate. That candidate is valid, non-empty, not in `forbidden`, and the join of exactly `n` SYLS entries. |
| Generator.Generator.Sample | model/generator.py:41-46 | The sampling loop returns the candidate of the first accepted attempt, with the same guarantees as `Generate`. |
| Entry.LexicalEntry.constructor | model/entry.py:25-32 | Every field takes its default. The empty wordform is valid, and its syllables are `[""]`. |
| Entry.LexicalEntry.New | model/entry.py:25-54 | Construction succeeds iff the wordform is valid; otherwise it raises the `ValueError` of `set_nvn`. On success the syllables are the given ones when non-empty and `syllabify(nvn)` otherwise. Every other field is stored as passed. |
| Entry.LexicalEntry.KeepGivenSyllables | model/entry.py:49-50 | A non-empty list of syllables replaces the computed one; an empty list keeps it. |
| Entry.LexicalEntry.StoreDetails | model/entry.py:51-54 | `en`, `nvn_desc`, `en_desc`, `prime` and the verb-kind flags are stored as passed. |
| Entry.LexicalEntry.SetNvn | model/entry.py:56-69 | Succeeds iff the wordform is valid, and then sets `nvn` and `nvn_syllables = syllabify(nvn)` together. Otherwise it raises `ValueError("Form '<w>' is invalid in Novan.")` and changes neither field. |
| Entry.LexicalEntry.SetNvnDesc | model/entry.py:71-83 | Always raises `NotImplementedError` and changes nothing. |
| Entry.SetNvnSyllablesSpellWord | model/entry.py:65-67 | After a successful `set_nvn` of a non-empty word, the stored syllables are non-empty and concatenate back to the wordform. Over the alphabet, each one is an inventory syllable. |
| Text.SkipSpaces | ctrl/verb_list.py:136 | Returns the first position from `i` on that is not whitespace, or the end; everything skipped is whitespace. |
| Text.BackSpaces | ctrl/verb_list.py:136 | Returns the end of the slice once trailing whitespace is dropped; everything dropped is whitespace. |
| Text.Strip | ctrl/verb_list.py:136 | `str.strip()`: the slice between the leading and the trailing whitespace. `Text.StripShape` characterises it. |
| Text.StripShape | ctrl/verb_list.py:136 | `strip()` returns a slice of its input, with only whitespace before and after it. A non-empty result neither starts nor ends with whitespace. |
| Text.Lower | ctrl/verb_list.py:136 | `lower()` keeps the length, maps every ASCII capital to its small letter, and keeps every other character. |
| Text.IsSubstring | ctrl/verb_list.py:136 | `sub in s` on strings. `Text.IsSubstringIff` characterises it as occurrence at some position. |
| Text.IsSubstringIff | ctrl/verb_list.py:136 | `sub in s` holds exactly when `sub` occurs in `s` at some position. |
| Text.EmptyIsSubstring | ctrl/verb_list.py:136 | The empty string is a substring of every string. |
| Text.LexLe | ctrl/verb_list.py:139 | String `<=`: compared character by character, a proper prefix first. The four lemmas below make it a total order. |
| Text.LexLeReflexive | ctrl/verb_list.py:139 | String `<=` is reflexive. |
| Text.LexLeTotal | ctrl/verb_list.py:139 | String `<=` is total. |
| Text.LexLeAntisymmetric | ctrl/verb_list.py:139 | String `<=` is antisymmetric. |
| Text.LexLeTransitive | ctrl/verb_list.py:139 | String `<=` is transitive. |
| Sorting.SortByLabel | ctrl/verb_list.py:139 | The result is the stable sort of its input by label: sorted, a permutation of the input, and rows with the same label in their input order. |
| Sorting.StableSortKeepsPairs | ctrl/verb_list.py:139 | A stable sort has the length of its input and takes every row from it. |
| VerbList.CountBounds | ctrl/verb_list.py:117-129 | The completion count is 0 exactly when no criterion holds, and equals the number of criteria exactly when all hold. |
| VerbList.Criteria | ctrl/verb_list.py:118-128 | A verb has exactly six completion criteria. |
| VerbList.CompletionCount | ctrl/verb_list.py:117-129 | The completion count is between 0 and 6. |
| VerbList.CompletionPrefix | ctrl/verb_list.py:129 | The prefix is the six characters `"[k/6] "`, and its digit is the count k. |
| VerbList.Label | ctrl/verb_list.py:114-133 | The label built in `filter_verbs`. `VerbList.LabelLayout` and `VerbList.LabelEndsWithBase` characterise it. |
| VerbList.LabelLayout | ctrl/verb_list.py:114-133 | A label is the prime tag and a space (when that option is set; `"?"` for an unknown prime), then the completion prefix (when set), then the base label (`nvn` for Novan, `en` otherwise). |
| VerbList.LabelEndsWithBase | ctrl/verb_list.py:114-133 | Whatever the options, a label ends with the verb's base label. |
| VerbList.Search | ctrl/verb_list.py:136 | The search string: `filter.strip().lower()`, no longer than the filter and without ASCII capitals. |
| VerbList.KeptUpTo | ctrl/verb_list.py:111-137 | The first `n` verbs give at most `n` rows. |
| VerbList.KeptUpToMember | ctrl/verb_list.py:111-137 | A row is kept from the first `n` verbs iff its label passes the filter and it is one of those verbs under its own label. |
| VerbList.KeptIff | ctrl/verb_list.py:136-137 | A verb is kept iff it is listed and the search string is empty or occurs in its label. |
| VerbList.KeptRows | ctrl/verb_list.py:111-137 | Every kept row is a listed verb under its own label. |
| VerbList.ZipOfRows | ctrl/verb_list.py:141-142 | Splitting sorted rows into verbs and labels loses nothing: zipped back, they are the rows. |
| VerbList.ListingRows | ctrl/verb_list.py:109-142 | Whatever the list shows after filtering, it has at most as many verbs as the data controller. Every verb shown comes from that list, under its own label. |
| VerbList.SelectionWithin | ctrl/verb_list.py:142 | What the list box keeps of a selection when its list variable is set to `n` rows. A selected row within the new list stays selected; one past its end is dropped, so the result always lies within the list. |
| VerbList.KeptRowsOf | ctrl/verb_list.py:111-137 | The loop collects exactly the kept rows, in list order. |
| VerbList.VerbSelectorController.constructor | ctrl/verb_list.py:24-41 | Starts with no current verb, an empty list and no selection. |
| VerbList.VerbSelectorController.FilterVerbs | ctrl/verb_list.py:109-142 | `current_verbs` and the displayed labels have equal length. Together they are the stable sort by label of the verbs the search string keeps. The selection is what the list box keeps of the old one. |
| VerbList.VerbSelectorController.ShowMatching | ctrl/verb_list.py:111-142 | For a given search string, the list shows the stable sort by label of the kept rows, and a selected row past the new end is dropped. |
| VerbList.VerbSelectorController.Refresh | ctrl/verb_list.py:43-51 | After refiltering, if the current verb is listed, the selection is its first row. Otherwise the selection is what the list box kept of the old one. Either way the selection lies within the list. |
| VerbList.VerbSelectorController.SelectCurrentVerb | ctrl/verb_list.py:48-51 | The selection step of `refresh`: the first row showing the current verb, or no change when it is not listed. |
| VerbList.VerbSelectorController.SelectEvent | ctrl/verb_list.py:102-107 | Reacts to a click that leaves the rows `indices` selected. With exactly one row, the current verb becomes that row's verb and the list is refreshed. The selection then lies within the list: it is the verb's first row when the verb is still listed, and otherwise what the list box kept of the clicked row. With no row selected, only the selection is cleared. With several rows, nothing changes. |
| VerbList.IndexOf | ctrl/verb_list.py:49 | `list.index`: the first position holding the element. |

## Left out

- The tkinter user interface is not modelled: widgets, `setup_ui`, variable traces, `editor_refresh`, and the `update` hook of the verb list. The values of the search field and of the Novan, prime and completion options are parameters.
- CSV persistence of verbs and generator presets is not modelled (file I/O through a library). The verb list of the data controller is passed to each verb-list operation as a parameter.
- `pronounce`, `create_verb`, `remove_verb` and `AbstractEntry.__hash__` are not modelled. The first is unimplemented audio, the next two are list edits behind a message box, and the last raises at run time because it hashes a dict.
- The distribution of `random.choices` is not modelled. Each attempt's draw is a parameter: `n` inventory indices (none when `n <= 0`), each of positive weight.
- Generator.Generator.Generate: requires that some attempt is accepted. The source loop has no cap and runs forever otherwise, for example with every weight 0 or with `forbidden` covering every candidate.
- Generator.Generator.Generate: does not model weights that total 0. Python 3.9 and later raise `ValueError` from `random.choices` in that case. Python 3.8 draws the last SYLS entry, "sus", every time, so `generate(1)` returns "sus". The model's draws never pick a zero-weight entry, so both behaviours fall outside it.
- Nvn.Syllabify: does not model Python's recursion limit. `syllabify` recurses about once per character, so a word longer than about 1000 characters (such as "aiai…") raises `RecursionError` in the source, while the model returns its syllables.
- Weights are reals. Floating-point rounding and the scaling by 100 in the generator controller are not modelled. The default weight 1 (an integer in the source) is the real 1.0.
- Text.Lower: maps only the ASCII capitals. Python's `lower()` also maps other Unicode capitals and can lengthen a string ('İ' becomes two code points); no Novan character is affected. `VerbList.Search`'s bound `|r| <= |filter|` holds of the model only.
- `PRIME_TAGS` comes from `ctrl/constants`, which is not part of this model. It is a map parameter.
- `current_verbs` starts as `None` in the source; the model starts it as the empty list. No modelled operation reads it before `filter_verbs` has assigned it.
- The listbox selection is modelled as the single selected row: `Option<nat>`. Its one Tk behaviour that the model captures is that setting the list variable drops a selected row past the new end.
- VerbList.VerbSelectorController.SelectEvent: requires the selected index to lie within `current_verbs`. The listbox only reports rows it shows; an out-of-range index would raise `IndexError` in the source.
- The five verb-kind flags of `model/verb.py` are plain fields of the entry. Inheritance from `AbstractEntry` is not modelled.
- `generate` has no iteration cap. With every weight 0, or with `forbidden` covering every candidate, it loops forever; the model covers this with the requirement on `Generate` above.
- `syllabify` and `cvify` accept any string, valid or not, and so does the model.
- `is_valid` accepts characters outside the alphabet. It treats them as non-consonants, and the model does the same.
- After `SetWeight`, `weights` stays stale until `update_weights` runs. The model keeps it stale too.
