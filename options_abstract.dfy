/** The product-option source behind the PostNL shipping configuration
    dropdowns: a catalog of product options that is narrowed to the codes the
    configuration supports, filtered by flags, projected to {value, label}
    pairs and grouped for an optgroup list. */
module OptionsSource {
  import opened PhpArrays
  import opened PhpStrings

  /** The flag keys of an option record: every key of the PHP array other
      than the three reserved keys `value`, `label` and `group`. */
  type Flags = m: map<string, Value> | "value" !in m && "label" !in m && "group" !in m
    witness map[]

  /** One product option record: its value, its label, an optional `group`
      key and any number of flag keys ("isEvening", "isSunday", ...). */
  datatype ProductOption = ProductOption(
    value: Value,
    caption: string,
    group: Option<string>,
    flags: Flags)

  /** A select-box entry `['value' => ..., 'label' => ...]`. */
  datatype Entry = Entry(value: Value, caption: string)

  /** An optgroup entry `['label' => ..., 'value' => [entries]]`. */
  datatype OptionGroup = OptionGroup(caption: string, value: seq<Entry>)

  const NoOptionsLabel: string := "There are no available options"

  /** `$option[$key]` on an option record; Null when the key is absent. */
  function Field(o: ProductOption, key: string): (r: Value)
    ensures key == "value" ==> r == o.value
    ensures key == "label" ==> r != Null
    ensures key == "group" ==> (r != Null <==> o.group.Some?)
    ensures key != "value" && key != "label" && key != "group" ==>
            (r != Null <==> key in o.flags && o.flags[key] != Null)
  {
    if key == "value" then o.value
    else if key == "label" then Str(o.caption)
    else if key == "group" then (if o.group.Some? then Str(o.group.value) else Null)
    else if key in o.flags then o.flags[key]
    else Null
  }

  /** `isset($option[$key]) && $option[$key] == $value`. */
  predicate HasFlag(o: ProductOption, key: string, expected: Value): (r: bool)
    ensures r ==> expected != Null
    ensures expected != Null ==> (r <==> Field(o, key) == expected)
  {
    Field(o, key) != Null && Field(o, key) == expected
  }

  /** The flags of the filter that the option satisfies (the array_filter
      over $flags in setOptionsByFlagFilters). */
  function MatchingFlags(flags: map<string, Value>, o: ProductOption): (r: map<string, Value>)
    ensures forall key :: key in r ==> key in flags && r[key] == flags[key] && HasFlag(o, key, flags[key])
    ensures forall key :: key in flags && HasFlag(o, key, flags[key]) ==> key in r
  {
    map key | key in flags && HasFlag(o, key, flags[key]) :: flags[key]
  }

  /** `count($filterFlags) !== 0`. The flag filter is an OR: an option is
      kept exactly when at least one flag of the filter is set on it with an
      equal value. */
  predicate KeepByFlags(o: ProductOption, flags: map<string, Value>): (r: bool)
    ensures r <==> exists key :: key in flags && HasFlag(o, key, flags[key])
  {
    |MatchingFlags(flags, o)| != 0
  }

  function FlagKeep(flags: map<string, Value>): ((string, ProductOption)) -> bool
  {
    (e: (string, ProductOption)) => KeepByFlags(e.1, flags)
  }

  /** Membership in the flag-filtered catalog, stated entry by entry. */
  lemma FlagFilterMembers(s: OrderedMap<ProductOption>, flags: map<string, Value>, e: (string, ProductOption))
    ensures e in Filter(s, FlagKeep(flags)) <==>
            e in s && exists key :: key in flags && HasFlag(e.1, key, flags[key])
  {
    FilterMembers(s, FlagKeep(flags), e);
  }

  /** One step of setFilterdOptions: storing entry i under its key, when it
      matches a flag, extends the filter of the entries before it. */
  lemma FlagFilterStep(m: OrderedMap<ProductOption>, flags: map<string, Value>, i: nat)
    requires DistinctKeys(m) && i < |m|
    ensures Lookup(m, m[i].0) == Some(m[i].1)
    ensures
      var f := Filter(m[..i], FlagKeep(flags));
      Filter(m[..i + 1], FlagKeep(flags)) == if KeepByFlags(m[i].1, flags) then Put(f, m[i].0, m[i].1) else f
  {
    assert m[..i + 1][..i] == m[..i];
    LookupAt(m, i);
    FilterKeyAbsent(m, FlagKeep(flags), i);
  }

  /** An option that matches one flag is kept, whatever the other flags say. */
  lemma OneMatchingFlagSuffices(s: OrderedMap<ProductOption>, flags: map<string, Value>, i: nat, key: string)
    requires i < |s| && key in flags && HasFlag(s[i].1, key, flags[key])
    ensures s[i] in Filter(s, FlagKeep(flags))
  {
    FlagFilterMembers(s, flags, s[i]);
  }

  /** An empty flag map keeps nothing. */
  lemma {:induction false} NoFlagsKeepNothing(s: OrderedMap<ProductOption>)
    ensures Filter(s, FlagKeep(map[])) == []
  {
    if s != [] {
      NoFlagsKeepNothing(s[..|s| - 1]);
      assert MatchingFlags(map[], s[|s| - 1].1) == map[];
    }
  }

  /** The codes of the split configuration string that are catalog keys
      (`$supportedOptions` in setOptionsBySupportedType). */
  function SupportedOptions(types: seq<string>, available: OrderedMap<ProductOption>): (r: seq<string>)
    ensures forall k :: k in r <==> k in types && k in Keys(available)
  {
    FilterAll(types, In(Keys(available)));
    Filter(types, In(Keys(available)))
  }

  /** The catalog after setOptionsBySupportedType with the given
      configuration string. */
  function RestrictToSupported(available: OrderedMap<ProductOption>, config: string): OrderedMap<ProductOption>
  {
    Filter(available, KeyIn(SupportedOptions(Explode(',', config), available)))
  }

  /** The supported-type restriction keeps exactly the entries whose code is
      one of the comma-separated pieces (untrimmed), in their original order,
      and never adds a key. */
  lemma RestrictToSupportedIff(available: OrderedMap<ProductOption>, config: string, e: (string, ProductOption))
    ensures e in RestrictToSupported(available, config) <==> e in available && e.0 in Explode(',', config)
    ensures IsSubsequence(RestrictToSupported(available, config), available)
    ensures DistinctKeys(available) ==> DistinctKeys(RestrictToSupported(available, config))
  {
    var types := Explode(',', config);
    var supported := SupportedOptions(types, available);
    FilterMembers(available, KeyIn(supported), e);
    FilterMembers(types, In(Keys(available)), e.0);
    if e in available {
      KeyOfMember(available, e);
    }
    FilterIsSubsequence(available, KeyIn(supported));
    if DistinctKeys(available) {
      FilterDistinctKeys(available, KeyIn(supported));
    }
  }

  /** An empty configuration string empties the catalog, unless a code is
      literally "". */
  lemma EmptyConfigEmptiesCatalog(available: OrderedMap<ProductOption>)
    requires forall i :: 0 <= i < |available| ==> available[i].0 != ""
    ensures RestrictToSupported(available, "") == []
  {
    var r := RestrictToSupported(available, "");
    if r != [] {
      RestrictToSupportedIff(available, "", r[0]);
      assert false;
    }
  }

  /** `['value' => $option['value'], 'label' => __($option['label'])]`. */
  function EntryOf(o: ProductOption, tr: string -> string): Entry
  {
    Entry(o.value, tr(o.caption))
  }

  predicate HasGroup(e: (string, ProductOption))
  {
    e.1.group.Some?
  }

  /** The distinct groups of the options, in order of first appearance. */
  function GroupOrder(s: OrderedMap<ProductOption>): seq<string>
  {
    if s == [] then []
    else
      var gs := GroupOrder(s[..|s| - 1]);
      var g := s[|s| - 1].1.group;
      if g.Some? && g.value !in gs then gs + [g.value] else gs
  }

  /** The entries of the options whose group is g, in input order. */
  function Bucket(s: OrderedMap<ProductOption>, g: string, tr: string -> string): seq<Entry>
  {
    if s == [] then []
    else
      Bucket(s[..|s| - 1], g, tr)
      + (if s[|s| - 1].1.group == Some(g) then [EntryOf(s[|s| - 1].1, tr)] else [])
  }

  lemma {:induction false} GroupOrderDistinct(s: OrderedMap<ProductOption>)
    ensures Distinct(GroupOrder(s))
  {
    if s != [] {
      GroupOrderDistinct(s[..|s| - 1]);
    }
  }

  /** A group is listed exactly when some option carries it. */
  lemma {:induction false} GroupOrderMembers(s: OrderedMap<ProductOption>, g: string)
    ensures g in GroupOrder(s) <==> exists j :: 0 <= j < |s| && s[j].1.group == Some(g)
  {
    if s != [] {
      var n := |s| - 1;
      GroupOrderMembers(s[..n], g);
      if g in GroupOrder(s[..n]) {
        var j :| 0 <= j < n && s[..n][j].1.group == Some(g);
        assert s[j].1.group == Some(g);
      }
      if j :| 0 <= j < |s| && s[j].1.group == Some(g) {
        if j < n {
          assert s[..n][j].1.group == Some(g);
        }
      }
    }
  }

  /** An entry is in the bucket of g exactly when it is the entry of an
      option whose group is g. */
  lemma {:induction false} BucketMembers(s: OrderedMap<ProductOption>, g: string, tr: string -> string, x: Entry)
    ensures x in Bucket(s, g, tr) <==>
            exists j :: 0 <= j < |s| && s[j].1.group == Some(g) && EntryOf(s[j].1, tr) == x
  {
    if s != [] {
      var n := |s| - 1;
      BucketMembers(s[..n], g, tr, x);
      if x in Bucket(s[..n], g, tr) {
        var j :| 0 <= j < n && s[..n][j].1.group == Some(g) && EntryOf(s[..n][j].1, tr) == x;
        assert s[j] == s[..n][j];
      }
      if j :| 0 <= j < |s| && s[j].1.group == Some(g) && EntryOf(s[j].1, tr) == x {
        if j < n {
          assert s[..n][j] == s[j];
        }
      }
    }
  }

  /** A bucket is non-empty exactly when its group is listed. */
  lemma {:induction false} BucketNonEmpty(s: OrderedMap<ProductOption>, g: string, tr: string -> string)
    ensures |Bucket(s, g, tr)| > 0 <==> g in GroupOrder(s)
  {
    if s != [] {
      BucketNonEmpty(s[..|s| - 1], g, tr);
    }
  }

  /** Options without a group key change neither the groups nor the buckets,
      so filtering them out first (as the source does) is harmless. */
  lemma {:induction false} UngroupedOptionsIgnored(s: OrderedMap<ProductOption>, tr: string -> string)
    ensures GroupOrder(Filter(s, HasGroup)) == GroupOrder(s)
    ensures forall g :: Bucket(Filter(s, HasGroup), g, tr) == Bucket(s, g, tr)
  {
    if s != [] {
      var n := |s| - 1;
      UngroupedOptionsIgnored(s[..n], tr);
      var f := Filter(s, HasGroup);
      var f' := Filter(s[..n], HasGroup);
      if HasGroup(s[n]) {
        assert f == f' + [s[n]];
        assert f[..|f| - 1] == f';
      } else {
        assert f == f';
      }
    }
  }

  /** The test that keeps an option of group g. */
  function InGroup(g: string): ((string, ProductOption)) -> bool
  {
    (e: (string, ProductOption)) => e.1.group == Some(g)
  }

  /** The select-box entries of the options, one per option, in order. */
  function Entries(s: OrderedMap<ProductOption>, tr: string -> string): seq<Entry>
  {
    seq(|s|, i requires 0 <= i < |s| => EntryOf(s[i].1, tr))
  }

  /** The bucket of g is the entries of the options of group g, in input order. */
  lemma {:induction false} BucketInOrder(s: OrderedMap<ProductOption>, g: string, tr: string -> string)
    ensures Bucket(s, g, tr) == Entries(Filter(s, InGroup(g)), tr)
  {
    if s != [] {
      var n := |s| - 1;
      BucketInOrder(s[..n], g, tr);
      var f := Filter(s[..n], InGroup(g));
      if s[n].1.group == Some(g) {
        assert Entries(f + [s[n]], tr) == Entries(f, tr) + [EntryOf(s[n].1, tr)];
      }
    }
  }

  /** The total size of the buckets of the listed groups. */
  function BucketSizes(groups: seq<string>, s: OrderedMap<ProductOption>, tr: string -> string): nat
  {
    if groups == [] then 0
    else BucketSizes(groups[..|groups| - 1], s, tr) + |Bucket(s, groups[|groups| - 1], tr)|
  }

  lemma {:induction false} BucketSizesAppend(
    groups: seq<string>, s: OrderedMap<ProductOption>, o: (string, ProductOption), tr: string -> string)
    requires Distinct(groups)
    ensures BucketSizes(groups, s + [o], tr) ==
            BucketSizes(groups, s, tr) + (if o.1.group.Some? && o.1.group.value in groups then 1 else 0)
  {
    if groups != [] {
      var n := |groups| - 1;
      var g := groups[n];
      assert Distinct(groups[..n]);
      BucketSizesAppend(groups[..n], s, o, tr);
      assert (s + [o])[..|s|] == s;
      assert g !in groups[..n];
      assert groups == groups[..n] + [g];
    }
  }

  /** Every option with a group lands in exactly one bucket: the buckets
      together hold as many entries as there are grouped options. */
  lemma {:induction false} BucketsPartitionGroupedOptions(s: OrderedMap<ProductOption>, tr: string -> string)
    ensures BucketSizes(GroupOrder(s), s, tr) == |Filter(s, HasGroup)|
  {
    if s != [] {
      var n := |s| - 1;
      var p, o := s[..n], s[n];
      assert s == p + [o];
      BucketsPartitionGroupedOptions(p, tr);
      GroupOrderDistinct(p);
      BucketSizesAppend(GroupOrder(p), p, o, tr);
      if o.1.group.Some? && o.1.group.value !in GroupOrder(p) {
        var g := o.1.group.value;
        var gs := GroupOrder(p) + [g];
        assert gs[..|gs| - 1] == GroupOrder(p);
        BucketNonEmpty(p, g, tr);
      }
    }
  }

  /** `$sorted[$g]`, or the empty list that `$sorted[$g][] = ...` starts from. */
  function Existing(sorted: OrderedMap<seq<Entry>>, g: string): seq<Entry>
  {
    match Lookup(sorted, g)
    case Some(b) => b
    case None => []
  }

  /** One step of getOptionsArrayForGrouped: appending the entry of o to
      the bucket of its group keeps the buckets those of the options seen. */
  lemma BucketStep(sorted: OrderedMap<seq<Entry>>, p: OrderedMap<ProductOption>, o: (string, ProductOption), tr: string -> string)
    requires o.1.group.Some?
    requires Keys(sorted) == GroupOrder(p)
    requires forall g :: g in Keys(sorted) ==> Lookup(sorted, g) == Some(Bucket(p, g, tr))
    ensures
      var sorted' := Put(sorted, o.1.group.value, Existing(sorted, o.1.group.value) + [EntryOf(o.1, tr)]);
      && Keys(sorted') == GroupOrder(p + [o])
      && forall g :: g in Keys(sorted') ==> Lookup(sorted', g) == Some(Bucket(p + [o], g, tr))
  {
    var group := o.1.group.value;
    var e := EntryOf(o.1, tr);
    var sorted' := Put(sorted, group, Existing(sorted, group) + [e]);
    var s := p + [o];
    assert s[..|s| - 1] == p;
    GroupOrderDistinct(p);
    PutKeys(sorted, group, Existing(sorted, group) + [e]);
    if group in Keys(sorted) {
      assert Existing(sorted, group) == Bucket(p, group, tr);
    } else {
      BucketNonEmpty(p, group, tr);
      assert Existing(sorted, group) == [] == Bucket(p, group, tr);
    }
    assert Bucket(s, group, tr) == Existing(sorted, group) + [e];
    forall g | g in Keys(sorted') ensures Lookup(sorted', g) == Some(Bucket(s, g, tr)) {
      PutLookup(sorted, group, Existing(sorted, group) + [e], g);
      if g != group {
        assert Bucket(s, g, tr) == Bucket(p, g, tr);
      }
    }
  }

  /** The optgroup entries for the given (group => label) pairs. */
  function GroupEntries(checked: OrderedMap<string>, options: OrderedMap<ProductOption>, tr: string -> string): (r: seq<OptionGroup>)
    ensures |r| == |checked|
  {
    if checked == [] then []
    else
      var n := |checked| - 1;
      GroupEntries(checked[..n], options, tr) + [OptionGroup(tr(checked[n].1), Bucket(options, checked[n].0, tr))]
  }

  /** The i-th optgroup entry is built from the i-th checked group. */
  lemma {:induction false} GroupEntriesAt(checked: OrderedMap<string>, options: OrderedMap<ProductOption>, tr: string -> string, i: nat)
    requires i < |checked|
    ensures GroupEntries(checked, options, tr)[i] == OptionGroup(tr(checked[i].1), Bucket(options, checked[i].0, tr))
  {
    var n := |checked| - 1;
    if i < n {
      GroupEntriesAt(checked[..n], options, tr, i);
    } else if n > 0 {
      GroupEntriesAt(checked[..n], options, tr, 0);
    }
  }

  /** The groups setGroupedOptions appends for: those of `groups`, in the
      order of `groups`, that at least one option carries; each such entry
      gets a non-empty bucket. */
  lemma PresentGroups(options: OrderedMap<ProductOption>, groups: OrderedMap<string>, tr: string -> string, e: (string, string))
    ensures IsSubsequence(Filter(groups, KeyIn(GroupOrder(options))), groups)
    ensures e in Filter(groups, KeyIn(GroupOrder(options))) <==>
            e in groups && exists j :: 0 <= j < |options| && options[j].1.group == Some(e.0)
    ensures e in Filter(groups, KeyIn(GroupOrder(options))) ==> |Bucket(options, e.0, tr)| > 0
  {
    FilterIsSubsequence(groups, KeyIn(GroupOrder(options)));
    FilterMembers(groups, KeyIn(GroupOrder(options)), e);
    GroupOrderMembers(options, e.0);
    BucketNonEmpty(options, e.0, tr);
  }

  /** Two options in the order morning, evening, grouped with the group
      list evening, morning: the optgroups follow the group list. */
  lemma GroupingFollowsGroupList(tr: string -> string)
    ensures
      var x := ProductOption(Int(1), "X", Some("morning"), map[]);
      var y := ProductOption(Int(2), "Y", Some("evening"), map[]);
      var options := [("x", x), ("y", y)];
      var groups := [("evening", "Evening"), ("morning", "Morning")];
      GroupEntries(Filter(groups, KeyIn(GroupOrder(options))), options, tr) ==
        [OptionGroup(tr("Evening"), [Entry(Int(2), tr("Y"))]), OptionGroup(tr("Morning"), [Entry(Int(1), tr("X"))])]
  {
    var x := ProductOption(Int(1), "X", Some("morning"), map[]);
    var y := ProductOption(Int(2), "Y", Some("evening"), map[]);
    var options := [("x", x), ("y", y)];
    var groups := [("evening", "Evening"), ("morning", "Morning")];
    assert "evening" != "morning";
    assert options[..1] == [("x", x)];
    assert [("x", x)][..0] == [];
    assert GroupOrder([("x", x)]) == ["morning"];
    assert GroupOrder(options) == ["morning", "evening"];
    var keep := KeyIn(GroupOrder(options));
    assert keep(groups[0]) && keep(groups[1]);
    assert groups[..1] == [groups[0]];
    assert groups[..1][..0] == [];
    assert Filter(groups[..1], keep) == [groups[0]];
    assert Filter(groups, keep) == groups;
    assert Bucket([("x", x)], "evening", tr) == [];
    assert Bucket(options, "evening", tr) == [Entry(Int(2), tr("Y"))];
    assert Bucket([("x", x)], "morning", tr) == [Entry(Int(1), tr("X"))];
    assert Bucket(options, "morning", tr) == [Entry(Int(1), tr("X"))];
    assert GroupEntries(groups[..1], options, tr) == [OptionGroup(tr("Evening"), [Entry(Int(2), tr("Y"))])];
  }

  class OptionsAbstract {
    /** code => option record: the catalog, narrowed in place by setOptionsBySupportedType. */
    var availableOptions: OrderedMap<ProductOption>
    /** The options kept by the last flag filtering. */
    var filterdOptions: OrderedMap<ProductOption>
    /** Optgroup entries, accumulated by setGroupedOptions. */
    var groupedOptions: seq<OptionGroup>
    /** The translation function `__()`, a collaborator of the host. */
    const translate: string -> string

    ghost predicate Valid()
      reads this
    {
      DistinctKeys(availableOptions) && DistinctKeys(filterdOptions)
    }

    constructor (catalog: OrderedMap<ProductOption>, tr: string -> string)
      requires DistinctKeys(catalog)
      ensures Valid()
      ensures availableOptions == catalog && filterdOptions == [] && groupedOptions == []
      ensures translate == tr
    {
      availableOptions := catalog;
      filterdOptions := [];
      groupedOptions := [];
      translate := tr;
    }

    /** getProductoptions($flags, $checkAvailable): first the supported-type
        restriction (when $checkAvailable is not false), then the flag
        filter (when $flags is an array), then the select-box list. */
    method GetProductoptions(flags: Option<map<string, Value>>, checkAvailable: Value, config: string)
      returns (r: seq<Entry>)
      requires Valid()
      modifies this`availableOptions, this`filterdOptions
      ensures Valid()
      ensures availableOptions ==
              if checkAvailable != Bool(false) then RestrictToSupported(old(availableOptions), config)
              else old(availableOptions)
      ensures filterdOptions ==
              if flags.Some? then Filter(availableOptions, FlagKeep(flags.value)) else old(filterdOptions)
      ensures |filterdOptions| == 0 ==> r == [Entry(Int(0), translate(NoOptionsLabel))]
      ensures |filterdOptions| != 0 ==>
              |r| == |filterdOptions| &&
              forall i :: 0 <= i < |r| ==> r[i] == EntryOf(filterdOptions[i].1, translate)
    {
      if checkAvailable != Bool(false) {
        SetOptionsBySupportedType(config);
      }
      if flags.Some? {
        SetFilterdOptions(flags.value);
      }
      r := GetOptionArrayUsableForConfiguration();
    }

    /** setFilterdOptions($flags): rebuilds the filtered set from scratch. */
    method SetFilterdOptions(flags: map<string, Value>)
      requires Valid()
      modifies this`filterdOptions
      ensures Valid()
      ensures filterdOptions == Filter(availableOptions, FlagKeep(flags))
    {
      filterdOptions := [];
      var i := 0;
      while i < |availableOptions|
        invariant 0 <= i <= |availableOptions|
        invariant Valid()
        invariant filterdOptions == Filter(availableOptions[..i], FlagKeep(flags))
      {
        var key, option := availableOptions[i].0, availableOptions[i].1;
        FlagFilterStep(availableOptions, flags, i);
        SetOptionsByFlagFilters(flags, option, key);
        i := i + 1;
      }
      assert availableOptions[..i] == availableOptions;
    }

    /** setOptionsByFlagFilters($flags, $option, $productCode): stores the
        catalog entry under $productCode when $option matches a flag. */
    method SetOptionsByFlagFilters(flags: map<string, Value>, option: ProductOption, productCode: string)
      requires Valid()
      requires productCode in Keys(availableOptions)
      modifies this`filterdOptions
      ensures Valid()
      ensures filterdOptions ==
              if KeepByFlags(option, flags)
              then Put(old(filterdOptions), productCode, Lookup(availableOptions, productCode).value)
              else old(filterdOptions)
    {
      var filterFlags := MatchingFlags(flags, option);
      if |filterFlags| != 0 {
        var stored := Lookup(availableOptions, productCode).value;
        PutDistinct(filterdOptions, productCode, stored);
        filterdOptions := Put(filterdOptions, productCode, stored);
      }
    }

    /** setOptionsBySupportedType(): narrows the catalog to the codes listed
        in the configuration string. */
    method SetOptionsBySupportedType(config: string)
      requires Valid()
      modifies this`availableOptions
      ensures Valid()
      ensures availableOptions == RestrictToSupported(old(availableOptions), config)
    {
      var supportedTypes := Explode(',', config);
      if |supportedTypes| == 0 {
        // explode never returns an empty list: the early return is dead code.
        assert false;
      }
      var supportedOptions := SupportedOptions(supportedTypes, availableOptions);
      FilterDistinctKeys(availableOptions, KeyIn(supportedOptions));
      availableOptions := Filter(availableOptions, KeyIn(supportedOptions));
    }

    /** getOptionArrayUsableForConfiguration(): the select-box list of the
        filtered options, or the single placeholder entry when there are none. */
    method GetOptionArrayUsableForConfiguration() returns (options: seq<Entry>)
      ensures |filterdOptions| == 0 ==> options == [Entry(Int(0), translate(NoOptionsLabel))]
      ensures |filterdOptions| != 0 ==>
              |options| == |filterdOptions| &&
              forall i :: 0 <= i < |options| ==> options[i] == EntryOf(filterdOptions[i].1, translate)
    {
      options := [];
      if |filterdOptions| == 0 {
        return [Entry(Int(0), translate(NoOptionsLabel))];
      }
      var i := 0;
      while i < |filterdOptions|
        invariant 0 <= i <= |filterdOptions|
        invariant |options| == i
        invariant forall k :: 0 <= k < i ==> options[k] == EntryOf(filterdOptions[k].1, translate)
      {
        var option := filterdOptions[i].1;
        options := options + [EntryOf(option, translate)];
        i := i + 1;
      }
    }

    /** setGroupedOptions($options, $groups): appends one optgroup entry per
        group of $groups, in the order of $groups, that has options. */
    method SetGroupedOptions(options: OrderedMap<ProductOption>, groups: OrderedMap<string>)
      modifies this`groupedOptions
      ensures groupedOptions ==
              old(groupedOptions) + GroupEntries(Filter(groups, KeyIn(GroupOrder(options))), options, translate)
    {
      var optionsSorted := GetOptionsArrayForGrouped(options);
      var optionsGroupChecked := Filter(groups, KeyIn(Keys(optionsSorted)));
      var i := 0;
      while i < |optionsGroupChecked|
        invariant 0 <= i <= |optionsGroupChecked|
        invariant groupedOptions == old(groupedOptions) + GroupEntries(optionsGroupChecked[..i], options, translate)
      {
        var group, caption := optionsGroupChecked[i].0, optionsGroupChecked[i].1;
        FilterMembers(groups, KeyIn(Keys(optionsSorted)), optionsGroupChecked[i]);
        groupedOptions := groupedOptions + [OptionGroup(translate(caption), Lookup(optionsSorted, group).value)];
        assert optionsGroupChecked[..i + 1][..i] == optionsGroupChecked[..i];
        i := i + 1;
      }
      assert optionsGroupChecked[..i] == optionsGroupChecked;
    }

    /** getGroupedOptions(): the accumulated optgroup entries. */
    method GetGroupedOptions() returns (r: seq<OptionGroup>)
      ensures r == groupedOptions
    {
      r := groupedOptions;
    }

    /** getOptionsArrayForGrouped($options): group => entries of the options
        with that group, groups in order of first appearance, entries in
        input order; options without a group are dropped. */
    method GetOptionsArrayForGrouped(options: OrderedMap<ProductOption>) returns (optionsSorted: OrderedMap<seq<Entry>>)
      ensures Keys(optionsSorted) == GroupOrder(options)
      ensures forall g :: g in Keys(optionsSorted) ==> Lookup(optionsSorted, g) == Some(Bucket(options, g, translate))
    {
      var optionsChecked := Filter(options, HasGroup);
      optionsSorted := [];
      var i := 0;
      while i < |optionsChecked|
        invariant 0 <= i <= |optionsChecked|
        invariant Keys(optionsSorted) == GroupOrder(optionsChecked[..i])
        invariant forall g :: g in Keys(optionsSorted) ==>
                    Lookup(optionsSorted, g) == Some(Bucket(optionsChecked[..i], g, translate))
      {
        var option := optionsChecked[i].1;
        FilterMembers(options, HasGroup, optionsChecked[i]);
        var group := option.group.value;
        BucketStep(optionsSorted, optionsChecked[..i], optionsChecked[i], translate);
        optionsSorted := Put(optionsSorted, group, Existing(optionsSorted, group) + [EntryOf(option, translate)]);
        assert optionsChecked[..i + 1] == optionsChecked[..i] + [optionsChecked[i]];
        i := i + 1;
      }
      assert optionsChecked[..i] == optionsChecked;
      UngroupedOptionsIgnored(options, translate);
    }
  }
}
