/** The verb list and selector: labels built from each verb entry, filtered by
    the search string, sorted by label, and the selection kept on the verb
    being edited. */
module VerbList {
  import opened Common
  import opened Text
  import opened Sorting
  import opened Entry

  /** The widget state the labels depend on: whether they are Novan (else
      English), and the prime and completion-rate checkboxes. */
  datatype Options = Options(isNvn: bool, checkPrime: bool, checkCompletion: bool)

  /** The number of completion criteria. */
  const CriteriaCount := 6

  /** How many of `bs` hold. */
  function Count(bs: seq<bool>): (k: nat)
    ensures k <= |bs|
  {
    if bs == [] then 0 else Count(bs[..|bs| - 1]) + (if bs[|bs| - 1] then 1 else 0)
  }

  /** No criterion holds exactly when the count is zero, and all hold exactly
      when the count is the number of criteria. */
  lemma {:induction false} CountBounds(bs: seq<bool>)
    ensures Count(bs) == 0 <==> forall i :: 0 <= i < |bs| ==> !bs[i]
    ensures Count(bs) == |bs| <==> forall i :: 0 <= i < |bs| ==> bs[i]
  {
    if bs != [] {
      var init := bs[..|bs| - 1];
      CountBounds(init);
      assert forall i :: 0 <= i < |init| ==> init[i] == bs[i];
    }
  }

  /** The completion criteria of a verb, in order: some verb kind is set, and
      the Novan form, English form, Novan description, English description and
      prime are each non-empty. */
  function Criteria(v: LexicalEntry): (c: seq<bool>)
    reads v
    ensures |c| == CriteriaCount
  {
    var k := v.kinds;
    [ k.isCognition || k.isGeneric || k.isProcess || k.isState || k.isTransfer,
      v.nvn != "", v.en != "", v.nvnDesc != "", v.enDesc != "", v.prime != "" ]
  }

  /** The completion count of a verb: the number of its criteria that hold. */
  function CompletionCount(v: LexicalEntry): (k: nat)
    reads v
    ensures k <= CriteriaCount
  {
    Count(Criteria(v))
  }

  /** The completion prefix `"[k/6] "`. */
  function CompletionPrefix(k: nat): (p: string)
    requires k <= CriteriaCount
    ensures |p| == 6 && p[0] == '[' && p[2..] == "/6] "
    ensures p[1] as int - '0' as int == k
  {
    "[" + [('0' as int + k) as char] + "/" + [('0' as int + CriteriaCount) as char] + "] "
  }

  /** The tag shown for a prime, or `"?"` for a prime without one. */
  function PrimeTag(primeTags: map<string, string>, prime: string): string {
    if prime in primeTags then primeTags[prime] else "?"
  }

  /** The wordform a verb is listed under: Novan or English. */
  function BaseLabel(v: LexicalEntry, isNvn: bool): string
    reads v
  {
    if isNvn then v.nvn else v.en
  }

  /** The label of a verb: the base label, then the completion prefix added in
      front when that option is set, then the prime tag and a space added in
      front of that when the prime option is set. */
  function Label(v: LexicalEntry, opts: Options, primeTags: map<string, string>): (l: string)
    reads v
  {
    var base := BaseLabel(v, opts.isNvn);
    var rated := if opts.checkCompletion then CompletionPrefix(CompletionCount(v)) + base else base;
    if opts.checkPrime then PrimeTag(primeTags, v.prime) + " " + rated else rated
  }

  /** The prime tag comes first, the completion prefix next, the base label last. */
  lemma LabelLayout(v: LexicalEntry, opts: Options, primeTags: map<string, string>)
    ensures var tag := if opts.checkPrime then PrimeTag(primeTags, v.prime) + " " else "";
            var rate := if opts.checkCompletion then CompletionPrefix(CompletionCount(v)) else "";
            Label(v, opts, primeTags) == tag + rate + BaseLabel(v, opts.isNvn)
  {
  }

  /** Whatever the options, a label ends with the verb's base label. */
  lemma LabelEndsWithBase(v: LexicalEntry, opts: Options, primeTags: map<string, string>)
    ensures var l, base := Label(v, opts, primeTags), BaseLabel(v, opts.isNvn);
            |base| <= |l| && l[|l| - |base|..] == base
  {
    LabelLayout(v, opts, primeTags);
  }

  /** The search string: the filter without surrounding whitespace, in lower case. */
  function Search(filter: string): (r: string)
    ensures |r| <= |filter|
    ensures forall i :: 0 <= i < |r| ==> !('A' <= r[i] <= 'Z')
  {
    Lower(Strip(filter))
  }

  /** A label passes the filter when the search string is empty or occurs in it. */
  predicate Matches(search: string, l: string) {
    search == [] || IsSubstring(search, l)
  }

  /** The rows `(labels[i], items[i])`, in order. */
  function Zip<T>(labels: seq<string>, items: seq<T>): (z: seq<(string, T)>)
    requires |labels| == |items|
    ensures |z| == |items|
    ensures forall i :: 0 <= i < |z| ==> z[i] == (labels[i], items[i])
  {
    seq(|items|, i requires 0 <= i < |items| => (labels[i], items[i]))
  }

  /** The labels of the rows, in order. */
  function RowLabels<T>(rows: seq<(string, T)>): (ls: seq<string>)
    ensures |ls| == |rows|
    ensures forall k :: 0 <= k < |rows| ==> ls[k] == rows[k].0
  {
    seq(|rows|, k requires 0 <= k < |rows| => rows[k].0)
  }

  /** The items of the rows, in order. */
  function RowItems<T>(rows: seq<(string, T)>): (items: seq<T>)
    ensures |items| == |rows|
    ensures forall k :: 0 <= k < |rows| ==> items[k] == rows[k].1
  {
    seq(|rows|, k requires 0 <= k < |rows| => rows[k].1)
  }

  /** Splitting rows into labels and items and zipping them back gives the rows. */
  lemma ZipOfRows<T>(rows: seq<(string, T)>)
    ensures Zip(RowLabels(rows), RowItems(rows)) == rows
  {
  }

  /** Among the first `n` verbs of `vs`, the (label, verb) rows whose label
      passes the filter, in their order. */
  function KeptUpTo(vs: seq<LexicalEntry>, opts: Options, primeTags: map<string, string>, search: string,
                    n: nat): (r: seq<(string, LexicalEntry)>)
    requires n <= |vs|
    reads vs
    ensures |r| <= n
  {
    if n == 0 then []
    else
      var l := Label(vs[n - 1], opts, primeTags);
      KeptUpTo(vs, opts, primeTags, search, n - 1) + (if Matches(search, l) then [(l, vs[n - 1])] else [])
  }

  /** A row is kept from the first `n` verbs exactly when its label passes the
      filter and it is one of those verbs under its own label. */
  lemma {:induction false} KeptUpToMember(vs: seq<LexicalEntry>, opts: Options, primeTags: map<string, string>,
                                          search: string, n: nat, x: (string, LexicalEntry))
    requires n <= |vs|
    ensures x in KeptUpTo(vs, opts, primeTags, search, n)
            <==> Matches(search, x.0) && exists i :: 0 <= i < n && vs[i] == x.1 && x.0 == Label(x.1, opts, primeTags)
  {
    if n > 0 {
      var v := vs[n - 1];
      var l := Label(v, opts, primeTags);
      var before := KeptUpTo(vs, opts, primeTags, search, n - 1);
      var last := if Matches(search, l) then [(l, v)] else [];
      assert KeptUpTo(vs, opts, primeTags, search, n) == before + last;
      KeptUpToMember(vs, opts, primeTags, search, n - 1, x);
      if x in last {
        assert x == (l, v);
      }
      if Matches(search, x.0) && exists i :: 0 <= i < n && vs[i] == x.1 && x.0 == Label(x.1, opts, primeTags) {
        var i :| 0 <= i < n && vs[i] == x.1 && x.0 == Label(x.1, opts, primeTags);
        if i == n - 1 {
          assert x.1 == v && x.0 == l;
          assert last == [(x.0, x.1)];
        }
      }
    }
  }

  /** The (label, verb) rows the filter keeps, in the order of `vs`. */
  function Kept(vs: seq<LexicalEntry>, opts: Options, primeTags: map<string, string>, search: string)
    : seq<(string, LexicalEntry)>
    reads vs
  {
    KeptUpTo(vs, opts, primeTags, search, |vs|)
  }

  /** A verb is kept, under its label, exactly when it is listed and that
      label passes the filter. */
  lemma KeptIff(vs: seq<LexicalEntry>, opts: Options, primeTags: map<string, string>, search: string,
                v: LexicalEntry)
    ensures (Label(v, opts, primeTags), v) in Kept(vs, opts, primeTags, search)
            <==> v in vs && Matches(search, Label(v, opts, primeTags))
  {
    var l := Label(v, opts, primeTags);
    KeptUpToMember(vs, opts, primeTags, search, |vs|, (l, v));
    if v in vs && Matches(search, l) {
      var i :| 0 <= i < |vs| && vs[i] == v;
    }
  }

  /** Every kept row is a listed verb under its own label. */
  lemma KeptRows(vs: seq<LexicalEntry>, opts: Options, primeTags: map<string, string>, search: string)
    ensures forall x :: x in Kept(vs, opts, primeTags, search) ==> x.1 in vs && x.0 == Label(x.1, opts, primeTags)
  {
    forall x | x in Kept(vs, opts, primeTags, search) ensures x.1 in vs && x.0 == Label(x.1, opts, primeTags) {
      KeptUpToMember(vs, opts, primeTags, search, |vs|, x);
    }
  }

  /** Rows that are a stable sort of the kept rows show listed verbs, each
      under its own label. */
  lemma ListingRows(labels: seq<string>, entries: seq<LexicalEntry>, vs: seq<LexicalEntry>,
                    opts: Options, primeTags: map<string, string>, search: string)
    requires |labels| == |entries|
    requires IsStableSortOf<LexicalEntry>(Zip<LexicalEntry>(labels, entries), Kept(vs, opts, primeTags, search))
    ensures |entries| <= |vs|
    ensures forall k :: 0 <= k < |entries| ==> entries[k] in vs && labels[k] == Label(entries[k], opts, primeTags)
  {
    var z := Zip(labels, entries);
    var kept := Kept(vs, opts, primeTags, search);
    StableSortKeepsPairs(z, kept);
    KeptRows(vs, opts, primeTags, search);
    forall k | 0 <= k < |entries| ensures entries[k] in vs && labels[k] == Label(entries[k], opts, primeTags) {
      assert z[k] in kept;
    }
  }

  /** The selected row once the list shows `n` rows: a selected row past the
      new end is dropped, and one within it stays selected. */
  function SelectionWithin(sel: Option<nat>, n: nat): (r: Option<nat>)
    ensures r.Some? ==> r == sel && r.value < n
    ensures sel.Some? && sel.value < n ==> r == sel
  {
    if sel.Some? && sel.value >= n then None else sel
  }

  /** Collects, in the order of `vs`, the (label, verb) rows whose label the
      search string matches. */
  method KeptRowsOf(vs: seq<LexicalEntry>, opts: Options, primeTags: map<string, string>, search: string)
    returns (rows: seq<(string, LexicalEntry)>)
    ensures rows == Kept(vs, opts, primeTags, search)
  {
    rows := [];
    for i := 0 to |vs|
      invariant rows == KeptUpTo(vs, opts, primeTags, search, i)
    {
      var verb := vs[i];
      var verbLabel := Label(verb, opts, primeTags);
      if Matches(search, verbLabel) {
        rows := rows + [(verbLabel, verb)];
      }
    }
  }

  /** The controller of the verb list: the verb being edited, the verbs and
      labels on display, and the selected row. The verbs themselves belong to
      the data controller and are passed to each operation as they stand. */
  class VerbSelectorController {
    var currentVerb: Option<LexicalEntry>
    var currentVerbs: seq<LexicalEntry>
    var varVerbs: seq<string>
    var selection: Option<nat>

    /** Nothing is edited, listed or selected yet. */
    constructor ()
      ensures currentVerb == None && currentVerbs == [] && varVerbs == [] && selection == None
    {
      currentVerb := None;
      currentVerbs := [];
      varVerbs := [];
      selection := None;
    }

    /** The list shows `rows`, sorted by label with ties in their order in
        `rows`: the verbs in `currentVerbs` and their labels in `varVerbs`. */
    ghost predicate Lists(rows: seq<(string, LexicalEntry)>)
      reads this`currentVerbs, this`varVerbs
    {
      |varVerbs| == |currentVerbs| && IsStableSortOf(Zip(varVerbs, currentVerbs), rows)
    }

    /** Lists the verbs whose label passes the filter, sorted by label with ties
        in list order, and displays their labels; the list box then drops a
        selected row past the new end of the list. */
    method FilterVerbs(verbs: seq<LexicalEntry>, filter: string, opts: Options, primeTags: map<string, string>)
      modifies this`currentVerbs, this`varVerbs, this`selection
      ensures Lists(old(Kept(verbs, opts, primeTags, Search(filter))))
      ensures selection == SelectionWithin(old(selection), |currentVerbs|)
    {
      var search := Search(filter);
      ShowMatching(verbs, search, opts, primeTags);
    }

    /** Lists the verbs whose label the search string matches, sorted by label
        with ties in list order; a selected row past the new end is dropped. */
    method ShowMatching(verbs: seq<LexicalEntry>, search: string, opts: Options, primeTags: map<string, string>)
      modifies this`currentVerbs, this`varVerbs, this`selection
      ensures Lists(old(Kept(verbs, opts, primeTags, search)))
      ensures selection == SelectionWithin(old(selection), |currentVerbs|)
    {
      var verbList := KeptRowsOf(verbs, opts, primeTags, search);
      verbList := SortByLabel(verbList);
      var entries := RowItems(verbList);
      var shown := RowLabels(verbList);
      ZipOfRows(verbList);
      currentVerbs := entries;
      varVerbs := shown;
      selection := SelectionWithin(selection, |shown|);
    }

    /** Refilters the list, then selects the first row showing the verb being
        edited when it is listed; otherwise the selection is what the list box
        keeps of the old one.  Either way the selection lies within the list. */
    method Refresh(verbs: seq<LexicalEntry>, filter: string, opts: Options, primeTags: map<string, string>)
      modifies this`currentVerbs, this`varVerbs, this`selection
      ensures Lists(old(Kept(verbs, opts, primeTags, Search(filter))))
      ensures selection.Some? ==> selection.value < |currentVerbs|
      ensures currentVerb.Some? && currentVerb.value in currentVerbs ==>
                selection.Some? && selection.value < |currentVerbs|
                && currentVerbs[selection.value] == currentVerb.value
                && currentVerb.value !in currentVerbs[..selection.value]
      ensures !(currentVerb.Some? && currentVerb.value in currentVerbs) ==>
                selection == SelectionWithin(old(selection), |currentVerbs|)
    {
      FilterVerbs(verbs, filter, opts, primeTags);
      SelectCurrentVerb();
    }

    /** Selects the first row showing the verb being edited when it is listed;
        otherwise the selection is left as it was. */
    method SelectCurrentVerb()
      modifies this`selection
      ensures currentVerb.Some? && currentVerb.value in currentVerbs ==>
                selection.Some? && selection.value < |currentVerbs|
                && currentVerbs[selection.value] == currentVerb.value
                && currentVerb.value !in currentVerbs[..selection.value]
      ensures !(currentVerb.Some? && currentVerb.value in currentVerbs) ==> selection == old(selection)
    {
      if currentVerb.Some? && currentVerb.value in currentVerbs {
        var index := IndexOf(currentVerbs, currentVerb.value);
        selection := Some(index);
      }
    }

    /** Reacts to a click in the list box, whose selection is then `indices`.
        With one row selected, makes that row's verb the verb being edited
        and refreshes; with no row selected, only the selection is cleared;
        with several, nothing changes. */
    method SelectEvent(indices: seq<int>, verbs: seq<LexicalEntry>, filter: string, opts: Options,
                       primeTags: map<string, string>)
      requires |indices| == 1 ==> 0 <= indices[0] < |currentVerbs|
      modifies this`currentVerb, this`currentVerbs, this`varVerbs, this`selection
      ensures |indices| == 1 ==> currentVerb == Some(old(currentVerbs)[indices[0]]) && Lists(old(Kept(verbs, opts, primeTags, Search(filter))))
      ensures |indices| == 1 ==> selection.Some? ==> selection.value < |currentVerbs|
      ensures |indices| == 1 && currentVerb.Some? && currentVerb.value in currentVerbs ==>
                selection.Some? && selection.value < |currentVerbs| && currentVerbs[selection.value] == currentVerb.value
                && currentVerb.value !in currentVerbs[..selection.value]
      ensures |indices| == 1 && !(currentVerb.Some? && currentVerb.value in currentVerbs) ==>
                selection == SelectionWithin(Some(indices[0] as nat), |currentVerbs|)
      ensures |indices| != 1 ==> && currentVerb == old(currentVerb) && currentVerbs == old(currentVerbs)
                                 && varVerbs == old(varVerbs)
      ensures |indices| == 0 ==> selection == None
      ensures |indices| > 1 ==> selection == old(selection)
    {
      if |indices| == 1 {
        var index := indices[0];
        selection := Some(index as nat);
        currentVerb := Some(currentVerbs[index]);
        Refresh(verbs, filter, opts, primeTags);
      } else if |indices| == 0 {
        selection := None;
      }
    }
  }

  /** The position of the first occurrence of `x` in `s`, as Python's `list.index`. */
  function IndexOf<T(==)>(s: seq<T>, x: T): (i: nat)
    requires x in s
    ensures i < |s| && s[i] == x && x !in s[..i]
  {
    if s[0] == x then 0
    else
      assert x in s[1..];
      var i := IndexOf(s[1..], x);
      assert s[..i + 1] == [s[0]] + s[1..][..i];
      i + 1
  }
}
