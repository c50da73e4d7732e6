/**
 * The results table's ranker: the comparator sort over a copy of the results and the
 * rule that moves the sort configuration when a column header is clicked.
 */
module Ranker {
  import opened Wrappers
  import opened Strings
  import opened ArchiveTypes
  import Lostness
  import StableSort

  /** A field's value as the comparator sees it: a number, or a string (a list is compared as its `toString`). */
  datatype KeyValue = Num(n: int) | Text(s: string)

  function OptionalText(value: Option<string>): KeyValue
  {
    match value
    case None => Num(0)
    case Some(text) => Text(text)
  }

  function OptionalNum(value: Option<int>): KeyValue
  {
    match value
    case None => Num(0)
    case Some(n) => Num(n)
  }

  /** A list is turned into a string by `Array.prototype.toString`, which joins with a comma. */
  function MultiValue(value: Multi): KeyValue
  {
    match value
    case Absent => Num(0)
    case One(text) => Text(text)
    case Many(texts) => Text(Join(texts, ","))
  }

  /**
   * `a[key] ?? 0`: the field's value, or 0 when the field is absent. The numeric fields always
   * compare as numbers, the identifier and the title always as strings.
   */
  function KeyValueOf(item: ArchiveItem, key: SortKey): (v: KeyValue)
    ensures key == Downloads || key == Pages || key == LostnessIndex ==> v.Num?
    ensures key == Identifier || key == Title ==> v.Text?
  {
    match key
    case Identifier => Text(item.identifier)
    case Title => Text(item.title)
    case Year => OptionalText(item.year)
    case Creator => MultiValue(item.creator)
    case Language => OptionalText(item.language)
    case Downloads => OptionalNum(item.downloads)
    case Pages => OptionalNum(item.pages)
    case Collection => MultiValue(item.collection)
    case PublicDate => OptionalText(item.publicdate)
    case Subject => MultiValue(item.subject)
    case LostnessIndex => OptionalNum(item.lostnessIndex)
  }

  /**
   * JavaScript's `Number(s)` on the strings a record holds, as far as the model follows it: after the
   * surrounding whitespace is trimmed, the empty string is 0 and an optionally signed run of decimal
   * digits is that integer; every other string is NaN (None).
   */
  function StringToNumber(s: string): Option<int>
  {
    var t := Trim(s);
    if |t| == 0 then Some(0)
    else if AllDigits(t) then Some(ParseDigits(t))
    else if |t| > 1 && t[0] == '+' && AllDigits(t[1..]) then Some(ParseDigits(t[1..]))
    else if |t| > 1 && t[0] == '-' && AllDigits(t[1..]) then Some(-ParseDigits(t[1..]))
    else None
  }

  predicate AllDigits(s: string)
  {
    forall i :: 0 <= i < |s| ==> IsDigit(s[i])
  }

  /**
   * `a < b` on two key values: numbers by value, strings by character order, and a number
   * against a string by converting the string to a number, NaN comparing false.
   */
  predicate Lt(a: KeyValue, b: KeyValue)
  {
    match (a, b)
    case (Num(x), Num(y)) => x < y
    case (Text(x), Text(y)) => StrLt(x, y)
    case (Num(x), Text(y)) => StringToNumber(y).Some? && x < StringToNumber(y).value
    case (Text(x), Num(y)) => StringToNumber(x).Some? && StringToNumber(x).value < y
  }

  /**
   * The comparator passed to `sort`: `a` goes first exactly when its key value is the smaller
   * one (ascending) or the larger one (descending).
   */
  function Compare(a: ArchiveItem, b: ArchiveItem, key: SortKey, direction: Direction): (order: int)
    ensures -1 <= order <= 1
    ensures direction == Ascending ==> (order < 0 <==> Lt(KeyValueOf(a, key), KeyValueOf(b, key)))
    ensures direction == Descending ==> (order < 0 <==> Lt(KeyValueOf(b, key), KeyValueOf(a, key)))
  {
    var aValue := KeyValueOf(a, key);
    var bValue := KeyValueOf(b, key);
    LtAsymmetric(aValue, bValue);
    if Lt(aValue, bValue) then (if direction == Ascending then -1 else 1)
    else if Lt(bValue, aValue) then (if direction == Ascending then 1 else -1)
    else 0
  }

  /** `Compare` as the comparator value handed to the stable sort. */
  function Comparator(key: SortKey, direction: Direction): StableSort.Comparator<ArchiveItem>
  {
    (a, b) => Compare(a, b, key, direction)
  }

  /** `sortedResults`: a copy of the results, sorted when a key is set. */
  function SortedView(results: seq<ArchiveItem>, config: SortConfig): seq<ArchiveItem>
  {
    if config.key.Some? then StableSort.Sort(results, Comparator(config.key.value, config.direction)) else results
  }

  /** All key values are numbers, or all are strings: the comparator is then a total preorder. */
  predicate Comparable(items: seq<ArchiveItem>, key: SortKey)
  {
    (forall i :: 0 <= i < |items| ==> KeyValueOf(items[i], key).Num?)
    || (forall i :: 0 <= i < |items| ==> KeyValueOf(items[i], key).Text?)
  }

  /** Selects the items whose key value is `v`. */
  function HasKey(key: SortKey, v: KeyValue): ArchiveItem -> bool
  {
    item => KeyValueOf(item, key) == v
  }

  // ---------------------------------------------------------------------------
  // Number conversion

  /** A rendered integer converts back to itself, so numeric strings compare with numbers by value. */
  lemma StringToNumberOfInt(n: int)
    ensures StringToNumber(IntToString(n)) == Some(n)
  {
    var r := IntToString(n);
    if n < 0 {
      var m: nat := -n;
      NatToStringDigits(m);
      NatToStringRoundTrip(m);
      var digits := NatToString(m);
      assert r == "-" + digits;
      assert r[0] == '-' && r[1..] == digits && r[|r| - 1] == digits[|digits| - 1];
      TrimmedAlready(r);
      assert !AllDigits(r) by {
        assert !IsDigit(r[0]);
      }
    } else {
      NatToStringDigits(n);
      NatToStringRoundTrip(n);
      TrimmedAlready(r);
    }
  }

  /** A string that neither starts nor ends with whitespace is its own trim. */
  lemma TrimmedAlready(s: string)
    requires |s| == 0 || (!IsJsWhitespace(s[0]) && !IsJsWhitespace(s[|s| - 1]))
    ensures Trim(s) == s
  {
  }

  /** Blank strings convert to 0, numeric strings to their value. */
  lemma StringToNumberExamples()
    ensures StringToNumber("") == Some(0)
    ensures StringToNumber("1999") == Some(1999)
    ensures StringToNumber("-7") == Some(-7)
  {
    StringToNumberOfInt(1999);
    StringToNumberOfInt(-7);
    assert IntToString(1999) == "1999";
    assert IntToString(-7) == "-7";
  }

  /** A string with a character other than a sign or a digit inside it converts to NaN. */
  lemma StringToNumberNaN(s: string, k: int)
    requires 0 < k < |s| - 1 && !IsDigit(s[k])
    requires !IsJsWhitespace(s[0]) && !IsJsWhitespace(s[|s| - 1])
    ensures StringToNumber(s) == None
  {
    TrimmedAlready(s);
    assert s[1..][k - 1] == s[k];
  }

  // ---------------------------------------------------------------------------
  // The comparator's order

  lemma LtIrreflexive(a: KeyValue)
    ensures !Lt(a, a)
  {
    if a.Text? {
      StrLtIrreflexive(a.s);
    }
  }

  lemma LtAsymmetric(a: KeyValue, b: KeyValue)
    ensures Lt(a, b) ==> !Lt(b, a)
  {
    if a.Text? && b.Text? {
      StrLtAsymmetric(a.s, b.s);
    }
  }

  /** On values of one kind, "not less" is transitive. */
  lemma NotLtTransitive(a: KeyValue, b: KeyValue, c: KeyValue)
    requires (a.Num? && b.Num? && c.Num?) || (a.Text? && b.Text? && c.Text?)
    ensures !Lt(b, a) && !Lt(c, b) ==> !Lt(c, a)
  {
    if a.Text? {
      StrLtTotal(a.s, b.s);
      StrLtTotal(b.s, c.s);
      StrLtTransitive(c.s, b.s, a.s);
      StrLtTransitive(c.s, a.s, b.s);
      StrLtTransitive(b.s, c.s, a.s);
    }
  }

  /** The comparator is antisymmetric on every pair of items, comparable or not. */
  lemma CompareAntisymmetric(key: SortKey, direction: Direction)
    ensures StableSort.Antisymmetric(Comparator(key, direction))
  {
    forall a, b ensures Compare(a, b, key, direction) == -Compare(b, a, key, direction) {
      LtAsymmetric(KeyValueOf(a, key), KeyValueOf(b, key));
    }
  }

  /** On comparable items "not after" is transitive. */
  lemma CompareTransitive(items: seq<ArchiveItem>, key: SortKey, direction: Direction)
    requires Comparable(items, key)
    ensures StableSort.TransitiveOn(items, Comparator(key, direction))
  {
    forall i, j, k | 0 <= i < |items| && 0 <= j < |items| && 0 <= k < |items|
      ensures Compare(items[i], items[j], key, direction) <= 0 && Compare(items[j], items[k], key, direction) <= 0
              ==> Compare(items[i], items[k], key, direction) <= 0
    {
      var va, vb, vc := KeyValueOf(items[i], key), KeyValueOf(items[j], key), KeyValueOf(items[k], key);
      LtAsymmetric(va, vb);
      LtAsymmetric(vb, vc);
      LtAsymmetric(va, vc);
      NotLtTransitive(va, vb, vc);
      NotLtTransitive(vc, vb, va);
    }
  }

  /** Items with one and the same key value compare equal. */
  lemma CompareEqualKeys(key: SortKey, direction: Direction, v: KeyValue)
    ensures StableSort.EqualClass(HasKey(key, v), Comparator(key, direction))
  {
    LtIrreflexive(v);
  }

  /** An absent field counts as 0, and a string holding a number compares with 0 by that number. */
  lemma AbsentYearSortsFirst(a: ArchiveItem, b: ArchiveItem)
    requires a.year.None? && b.year == Some("1999")
    ensures Compare(a, b, Year, Ascending) == -1
    ensures Compare(a, b, Year, Descending) == 1
  {
    StringToNumberExamples();
  }

  /**
   * Mixed keys can make the comparator inconsistent: an item of year "0" ties with an item
   * without a year, which ties with an item of year "", yet "" sorts before "0" as strings.
   */
  lemma MixedYearsInconsistent(a: ArchiveItem, b: ArchiveItem, c: ArchiveItem)
    requires a.year == Some("0") && b.year.None? && c.year == Some("")
    ensures Compare(a, b, Year, Ascending) == 0 && Compare(b, c, Year, Ascending) == 0
    ensures Compare(a, c, Year, Ascending) == 1
    ensures !StableSort.TransitiveOn([a, b, c], Comparator(Year, Ascending))
  {
    StringToNumberExamples();
    StringToNumberOfInt(0);
    assert IntToString(0) == "0";
    var items := [a, b, c];
    assert Compare(items[0], items[1], Year, Ascending) <= 0 && Compare(items[1], items[2], Year, Ascending) <= 0;
  }

  // ---------------------------------------------------------------------------
  // The sorted view

  /** The view holds exactly the results, each as often as there. */
  lemma SortedViewPermutation(results: seq<ArchiveItem>, config: SortConfig)
    ensures multiset(SortedView(results, config)) == multiset(results)
    ensures |SortedView(results, config)| == |results|
  {
    if config.key.Some? {
      StableSort.SortPermutation(results, Comparator(config.key.value, config.direction));
      assert |multiset(SortedView(results, config))| == |multiset(results)|;
    }
  }

  /**
   * On comparable keys the view is ordered: ascending, no later item has a smaller key;
   * descending, no later item has a larger key.
   */
  lemma SortedViewOrdered(results: seq<ArchiveItem>, key: SortKey, direction: Direction)
    requires Comparable(results, key)
    ensures var view := SortedView(results, SortConfig(Some(key), direction));
            forall i, j :: 0 <= i < j < |view| ==>
              if direction == Ascending then !Lt(KeyValueOf(view[j], key), KeyValueOf(view[i], key))
              else !Lt(KeyValueOf(view[i], key), KeyValueOf(view[j], key))
  {
    var cmp := Comparator(key, direction);
    CompareAntisymmetric(key, direction);
    CompareTransitive(results, key, direction);
    StableSort.SortSorted(results, cmp);
  }

  /** Items with equal keys keep their order in the results: the sort is stable. */
  lemma SortedViewStable(results: seq<ArchiveItem>, key: SortKey, direction: Direction, v: KeyValue)
    ensures var view := SortedView(results, SortConfig(Some(key), direction));
            StableSort.Filter(view, HasKey(key, v)) == StableSort.Filter(results, HasKey(key, v))
  {
    CompareEqualKeys(key, direction, v);
    StableSort.SortStable(results, Comparator(key, direction), HasKey(key, v));
  }

  /** Re-sorting the view by the same configuration changes nothing. */
  lemma SortedViewIdempotent(results: seq<ArchiveItem>, config: SortConfig)
    ensures SortedView(SortedView(results, config), config) == SortedView(results, config)
  {
    if config.key.Some? {
      CompareAntisymmetric(config.key.value, config.direction);
      StableSort.SortIdempotent(results, Comparator(config.key.value, config.direction));
    }
  }

  /** For a numeric key, ascending order is non-decreasing and descending order non-increasing. */
  lemma SortedViewNumericOrder(results: seq<ArchiveItem>, key: SortKey, direction: Direction)
    requires forall i :: 0 <= i < |results| ==> KeyValueOf(results[i], key).Num?
    ensures var view := SortedView(results, SortConfig(Some(key), direction));
            forall i, j :: 0 <= i < j < |view| ==>
              KeyValueOf(view[i], key).Num? && KeyValueOf(view[j], key).Num?
              && if direction == Ascending then KeyValueOf(view[i], key).n <= KeyValueOf(view[j], key).n
                 else KeyValueOf(view[i], key).n >= KeyValueOf(view[j], key).n
  {
    var view := SortedView(results, SortConfig(Some(key), direction));
    SortedViewOrdered(results, key, direction);
    SortedViewPermutation(results, SortConfig(Some(key), direction));
    forall i | 0 <= i < |view| ensures KeyValueOf(view[i], key).Num? {
      assert view[i] in multiset(results);
      var k :| 0 <= k < |results| && results[k] == view[i];
    }
  }

  /** The number a numeric key holds (0 for a string key, which the lemmas below exclude). */
  function NumKey(key: SortKey): ArchiveItem -> int
  {
    item => match KeyValueOf(item, key) case Num(n) => n case Text(_) => 0
  }

  /**
   * For a numeric key without ties (different items have different key values), the descending
   * view is the ascending view read back to front.
   */
  lemma SortedViewReverse(results: seq<ArchiveItem>, key: SortKey)
    requires forall i :: 0 <= i < |results| ==> KeyValueOf(results[i], key).Num?
    requires forall i, j :: 0 <= i < |results| && 0 <= j < |results| && results[i] != results[j] ==>
               KeyValueOf(results[i], key) != KeyValueOf(results[j], key)
    ensures SortedView(results, SortConfig(Some(key), Descending))
            == StableSort.Reverse(SortedView(results, SortConfig(Some(key), Ascending)))
  {
    var up := SortedView(results, SortConfig(Some(key), Ascending));
    var down := SortedView(results, SortConfig(Some(key), Descending));
    SortedViewPermutation(results, SortConfig(Some(key), Ascending));
    SortedViewPermutation(results, SortConfig(Some(key), Descending));
    StableSort.ReverseMultiset(up);
    DescendingViewByNumKey(results, key);
    AscendingViewReversed(results, key);
    NoTiesInView(results, down, key);
    StableSort.DecreasingUnique(down, StableSort.Reverse(up), NumKey(key));
  }

  /** The descending view of numeric keys is ordered by `NumKey`. */
  lemma DescendingViewByNumKey(results: seq<ArchiveItem>, key: SortKey)
    requires forall i :: 0 <= i < |results| ==> KeyValueOf(results[i], key).Num?
    ensures StableSort.DecreasingBy(SortedView(results, SortConfig(Some(key), Descending)), NumKey(key))
  {
    SortedViewNumericOrder(results, key, Descending);
  }

  /** The ascending view of numeric keys, read back to front, is ordered by `NumKey`. */
  lemma AscendingViewReversed(results: seq<ArchiveItem>, key: SortKey)
    requires forall i :: 0 <= i < |results| ==> KeyValueOf(results[i], key).Num?
    ensures StableSort.DecreasingBy(StableSort.Reverse(SortedView(results, SortConfig(Some(key), Ascending))), NumKey(key))
  {
    var view := SortedView(results, SortConfig(Some(key), Ascending));
    SortedViewNumericOrder(results, key, Ascending);
    var back := StableSort.Reverse(view);
    forall i, j | 0 <= i < j < |back| ensures NumKey(key)(back[i]) >= NumKey(key)(back[j]) {
      assert back[i] == view[|view| - 1 - i] && back[j] == view[|view| - 1 - j];
    }
  }

  /** A rearrangement of results without ties has no ties. */
  lemma NoTiesInView(results: seq<ArchiveItem>, view: seq<ArchiveItem>, key: SortKey)
    requires multiset(view) == multiset(results)
    requires forall i :: 0 <= i < |results| ==> KeyValueOf(results[i], key).Num?
    requires forall i, j :: 0 <= i < |results| && 0 <= j < |results| && results[i] != results[j] ==>
               KeyValueOf(results[i], key) != KeyValueOf(results[j], key)
    ensures StableSort.InjectiveOn(view, NumKey(key))
  {
    forall x, y | x in view && y in view && NumKey(key)(x) == NumKey(key)(y) ensures x == y {
      assert x in multiset(results) && y in multiset(results);
      var i :| 0 <= i < |results| && results[i] == x;
      var j :| 0 <= j < |results| && results[j] == y;
    }
  }

  /** Every item carries an index, and no item is less lost than one listed after it. */
  ghost predicate MostLostFirst(view: seq<ArchiveItem>)
  {
    forall i, j :: 0 <= i < j < |view| ==>
      view[i].lostnessIndex.Some? && view[j].lostnessIndex.Some?
      && view[i].lostnessIndex.value >= view[j].lostnessIndex.value
  }

  /** The first view of scored results lists the most lost items first. */
  lemma ScoredViewMostLostFirst(scored: seq<ArchiveItem>)
    requires forall i :: 0 <= i < |scored| ==> scored[i].lostnessIndex.Some?
    ensures MostLostFirst(SortedView(scored, InitialConfig))
  {
    forall i | 0 <= i < |scored| ensures KeyValueOf(scored[i], LostnessIndex).Num? {
      LostnessKey(scored[i]);
    }
    SortedViewNumericOrder(scored, LostnessIndex, Descending);
    var view := SortedView(scored, SortConfig(Some(LostnessIndex), Descending));
    SortedViewPermutation(scored, InitialConfig);
    forall i | 0 <= i < |view| ensures view[i].lostnessIndex.Some? {
      assert view[i] in multiset(scored);
      var k :| 0 <= k < |scored| && scored[k] == view[i];
    }
    forall i, j | 0 <= i < j < |view|
      ensures view[i].lostnessIndex.Some? && view[j].lostnessIndex.Some?
              && view[i].lostnessIndex.value >= view[j].lostnessIndex.value
    {
      LostnessKey(view[i]);
      LostnessKey(view[j]);
    }
  }

  lemma LostnessKey(item: ArchiveItem)
    ensures KeyValueOf(item, LostnessIndex) == OptionalNum(item.lostnessIndex)
  {
  }

  /** A search answer, once scored, is first shown most lost first. */
  lemma InitialViewMostLostFirst(docs: seq<ArchiveItem>)
    ensures MostLostFirst(SortedView(Lostness.AttachLostness(docs), InitialConfig))
  {
    var scored := Lostness.AttachLostness(docs);
    Lostness.AttachLostnessSpec(docs);
    assert forall i :: 0 <= i < |scored| ==> scored[i].lostnessIndex.Some?;
    ScoredViewMostLostFirst(scored);
  }

  // ---------------------------------------------------------------------------
  // The column-header rule

  /** `handleSort(key)`: the next configuration after a click on the header of `key`. */
  function NextConfig(config: SortConfig, key: SortKey): SortConfig
  {
    var direction := if config.key == Some(key) && config.direction == Ascending then Descending else Ascending;
    var direction' := if config.key != Some(key) then (if key == LostnessIndex then Descending else Ascending) else direction;
    SortConfig(Some(key), direction')
  }

  /** The initial configuration. */
  const InitialConfig := SortConfig(Some(LostnessIndex), Descending)

  /** A click always selects its key; on the active key it flips the direction, on a new key it takes that key's default. */
  lemma NextConfigRule(config: SortConfig, key: SortKey)
    ensures NextConfig(config, key).key == Some(key)
    ensures config.key == Some(key) ==> NextConfig(config, key).direction != config.direction
    ensures config.key != Some(key) ==>
              NextConfig(config, key).direction == (if key == LostnessIndex then Descending else Ascending)
  {
  }

  /** Two clicks on the active key restore the configuration. */
  lemma NextConfigTwiceOnActive(config: SortConfig, key: SortKey)
    requires config.key == Some(key)
    ensures NextConfig(NextConfig(config, key), key) == config
  {
  }

  /** Two clicks on a new key leave it selected in the opposite of its default direction. */
  lemma NextConfigTwiceOnNew(config: SortConfig, key: SortKey)
    requires config.key != Some(key)
    ensures NextConfig(NextConfig(config, key), key)
            == SortConfig(Some(key), if key == LostnessIndex then Ascending else Descending)
  {
  }

  /** The ranker's state: the scored results and the active sort configuration. */
  class RankerState {
    var results: seq<ArchiveItem>
    var config: SortConfig

    /** Starts with no results, sorted by lostness index, highest first. */
    constructor ()
      ensures results == [] && config == InitialConfig
    {
      results := [];
      config := InitialConfig;
    }

    /** A successful search: the answer's documents, each with its lostness index, become the results. */
    method ReceiveResults(docs: seq<ArchiveItem>)
      modifies this
      ensures results == Lostness.AttachLostness(docs)
      ensures config == old(config)
    {
      results := Lostness.AttachLostness(docs);
    }

    /** A click on the header of `key`. */
    method HandleSort(key: SortKey)
      modifies this
      ensures config == NextConfig(old(config), key)
      ensures results == old(results)
    {
      var direction := Ascending;
      if config.key == Some(key) && config.direction == Ascending {
        direction := Descending;
      }
      if config.key != Some(key) {
        direction := if key == LostnessIndex then Descending else Ascending;
      }
      config := SortConfig(Some(key), direction);
    }

    /** `sortedResults`: sorts a copy of the results, which themselves stay as they are. */
    method SortedResults() returns (sorted: seq<ArchiveItem>)
      ensures sorted == SortedView(results, config)
    {
      var sortableItems := new ArchiveItem[|results|](i requires 0 <= i < |results| reads this => results[i]);
      assert sortableItems[..] == results;
      if config.key.Some? {
        StableSort.SortInPlace(sortableItems, Comparator(config.key.value, config.direction));
      }
      sorted := sortableItems[..];
    }
  }
}
