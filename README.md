# PostNL product options and billing street: a Dafny model

This project models two small pieces of the PostNL Magento 2 extension and
proves properties about them.

- **The product-option source** (`Config/Source/OptionsAbstract.php`). It
  keeps a catalog of shipping product options, from option code to option
  record (`value`, `label`, an optional `group`, and flag keys such as
  `isEvening`). It does four things:
  - narrows the catalog to the comma-separated list of codes that the
    configuration supports;
  - filters the catalog by a flag map;
  - turns the filtered options into `{value, label}` select-box entries;
  - groups options into optgroup entries, in the order the caller gives.
- **The billing-address plugin**
  (`Plugin/Postcodecheck/Management/Billing.php`). Before a billing address
  is assigned, it rewrites the street as `street[0] + " " + housenumber + " "
  + addition` when the address has a PostNL house number.

Files:

- `php_arrays.dfy` (module `PhpArrays`): PHP values and PHP arrays. A PHP
  array with string keys is an insertion-ordered map, modelled as a
  sequence of (key, value) pairs with distinct keys. The module covers:
  - reading `$m[$k]` (`Lookup`) and writing `$m[$k] = $v` (`Put`);
  - `array_filter` (`Filter`);
  - "is a subsequence of", stated with an explicit, increasing index map.
- `php_strings.dfy` (module `PhpStrings`): `explode` and `implode` with a
  one-character separator, and both round trips.
- `options_abstract.dfy` (module `OptionsSource`): the option records, the
  specification functions, the lemmas, and the class `OptionsAbstract`.
  The class has the source's three fields, `availableOptions`,
  `filterdOptions` and `groupedOptions`. Each field is a sequence that the
  methods reassign, and the `foreach` loops of the source are `while`
  loops with invariants.
- `billing.dfy` (module `PostcodecheckBilling`): the address as a class
  with a `street` field, the before-plugin as a method that updates it in
  place, and the pure function that gives the new street.

Two behaviours of the code that a reader might not expect:

- The early return at `Config/Source/OptionsAbstract.php:136-138`
  suggests that an empty supported-codes string leaves the catalog
  unchanged. It can never run, because `explode(',', '')` returns `['']`,
  so an empty string empties the catalog unless a code is literally `""`.
  The branch is kept in `SetOptionsBySupportedType` as a proved-dead
  `assert false`, and `EmptyConfigEmptiesCatalog` states the outcome.
- `setGroupedOptions` appends to `groupedOptions` and never resets it, so
  calling it twice accumulates both results. The model does the same.

An option record is the PHP array `['value' => ..., 'label' => ...,
'group' => ..., <flag> => ...]`. Its flag keys are the type `Flags`, a map
that cannot hold the three reserved keys, so every record of the model is
a PHP array. Conversely, a PHP option record is a record of the model
when its `value` and flag values are null, a bool, an int or a string,
its `label` is a string, and its `group` is a string or absent (see
"## Left out" for the rest).

Names: `label` is a reserved word in Dafny, so the `label` key of the
records is the field `caption`. The source's spelling `filterdOptions` is
kept.

## Model

| member | source | states |
|---|---|---|
| PhpArrays.Lookup | Config/Source/OptionsAbstract.php:124 | reading `$m[$k]` yields a value exactly when k is one of the array's keys |
| PhpArrays.LookupAt | Config/Source/OptionsAbstract.php:124 | in an array with distinct keys, the value read under entry i's key is entry i's value |
| PhpArrays.Put | Config/Source/OptionsAbstract.php:124 | `$m[$k] = $v` with a new key appends (k, v) at the end |
| PhpArrays.PutKeys | Config/Source/OptionsAbstract.php:209 | `$m[$k] = $v` leaves the keys and their order unchanged when k exists, and otherwise appends k |
| PhpArrays.PutDistinct | Config/Source/OptionsAbstract.php:124 | `$m[$k] = $v` never creates a duplicate key |
| PhpArrays.PutLookup | Config/Source/OptionsAbstract.php:209 | after `$m[$k] = $v`, reading k gives v and reading any other key gives what it gave before |
| PhpArrays.Filter | Config/Source/OptionsAbstract.php:144-146 | `array_filter` never lengthens its input |
| PhpArrays.FilterMembers | Config/Source/OptionsAbstract.php:144-146 | an element is in the filtered array exactly when it is in the input and passes the test |
| PhpArrays.FilterIsSubsequence | Config/Source/OptionsAbstract.php:144-146 | the filtered array is a subsequence of the input: entries are unchanged and keep their relative order |
| PhpArrays.FilterDistinctKeys | Config/Source/OptionsAbstract.php:144-146 | filtering an array with distinct keys gives an array with distinct keys |
| PhpStrings.Explode | Config/Source/OptionsAbstract.php:134 | explode never returns an empty list; `""` gives `[""]`; no piece contains the separator; imploding the pieces gives back the input |
| PhpStrings.ExplodeImplode | Config/Source/OptionsAbstract.php:134 | exploding an implode of one or more separator-free pieces gives back the pieces |
| OptionsSource.Field | Config/Source/OptionsAbstract.php:120 | `$option[$key]` on a record: `value` reads the record's value, `label` is always set, `group` is set exactly when the record has a group, and any flag key (a key other than `value`, `label` and `group`) is set (non-null) exactly when the record carries that flag with a non-null value; an absent flag key reads as null |
| OptionsSource.HasFlag | Config/Source/OptionsAbstract.php:120 | `isset($option[$key]) && $option[$key] == $value`: a null filter value never matches (`isset`), and a non-null one matches exactly when the field equals it (strict equality) |
| OptionsSource.FlagKeep | Config/Source/OptionsAbstract.php:104-105 | the keep decision the loop of setFilterdOptions makes for each catalog entry `$key => $option`: the option passes `KeepByFlags` (line 123) |
| OptionsSource.MatchingFlags | Config/Source/OptionsAbstract.php:119-121 | the `array_filter` over `$flags`: the sub-map of the filter holding exactly the flags, with their values, that the option matches |
| OptionsSource.KeepByFlags | Config/Source/OptionsAbstract.php:119-125 | `count($filterFlags) !== 0`: an option passes exactly when at least one flag of the filter is set on it (non-null) with an equal value, so the flags are OR-ed |
| OptionsSource.FlagFilterStep | Config/Source/OptionsAbstract.php:103-105 | one iteration of the loop of setFilterdOptions: reading the catalog under entry i's code gives entry i, and storing it (when it matches) extends the filter of the entries before it by exactly that entry |
| OptionsSource.FlagFilterMembers | Config/Source/OptionsAbstract.php:100-107 | an entry is in the flag-filtered catalog exactly when it is a catalog entry that matches at least one flag |
| OptionsSource.OneMatchingFlagSuffices | Config/Source/OptionsAbstract.php:119-125 | an option matching one flag is kept, whatever the other flags are |
| OptionsSource.NoFlagsKeepNothing | Config/Source/OptionsAbstract.php:119-125 | an empty flag map keeps no option |
| OptionsSource.SupportedOptions | Config/Source/OptionsAbstract.php:140-142 | `$supportedOptions`: a code is kept exactly when it is one of the configured pieces and a catalog key (`isset($this->availableOptions[$type])`) |
| PhpArrays.In | Config/Source/OptionsAbstract.php:141 | `isset($this->availableOptions[$type])` as key presence, which agrees with `isset` because no catalog value is null |
| PhpArrays.KeyIn | Config/Source/OptionsAbstract.php:144-146 | the `in_array($code, $supportedOptions)` key callback, with strict equality: the entry's key is one of the listed codes |
| OptionsSource.RestrictToSupported | Config/Source/OptionsAbstract.php:134-146 | the catalog after setOptionsBySupportedType: the catalog filtered by its key against `$supportedOptions` of the exploded, untrimmed configuration string; its properties are those of `RestrictToSupportedIff` |
| OptionsSource.RestrictToSupportedIff | Config/Source/OptionsAbstract.php:134-146 | the restriction keeps exactly the entries whose code is one of the comma-separated pieces (not trimmed), in their original order, unchanged, with distinct keys, and adds no key |
| OptionsSource.EmptyConfigEmptiesCatalog | Config/Source/OptionsAbstract.php:134-146 | with an empty configuration string, a catalog that has no `""` code becomes empty |
| OptionsSource.EntryOf | Config/Source/OptionsAbstract.php:209-212 | the select-box entry of an option, as built here and at line 161: its `value` unchanged and its `label` passed through `__()` |
| OptionsSource.HasGroup | Config/Source/OptionsAbstract.php:203-205 | the `array_key_exists('group', $value)` callback: the option has a `group` key |
| OptionsSource.GroupOrder | Config/Source/OptionsAbstract.php:207-213 | the keys of `$optionsSorted`: the groups of the options in order of first appearance; its properties are those of `GroupOrderDistinct` and `GroupOrderMembers` |
| OptionsSource.Bucket | Config/Source/OptionsAbstract.php:207-213 | `$optionsSorted[$g]`: the entries of the options whose group is g, in input order; its properties are those of `BucketMembers` and `BucketNonEmpty` |
| OptionsSource.GroupOrderDistinct | Config/Source/OptionsAbstract.php:209 | each group is listed once among the grouped buckets |
| OptionsSource.GroupOrderMembers | Config/Source/OptionsAbstract.php:207-213 | a group has a bucket exactly when some option carries it |
| OptionsSource.BucketMembers | Config/Source/OptionsAbstract.php:207-213 | an entry is in the bucket of g exactly when it is the `{value, label}` entry of an option whose group is g |
| OptionsSource.BucketInOrder | Config/Source/OptionsAbstract.php:207-213 | the bucket of g is exactly the translated entries of the options whose group is g, one per option, in input order |
| OptionsSource.BucketNonEmpty | Config/Source/OptionsAbstract.php:176-178 | a group's bucket is non-empty exactly when the group is among the bucketed keys |
| OptionsSource.UngroupedOptionsIgnored | Config/Source/OptionsAbstract.php:203-205 | dropping the options without a `group` key changes neither the group list nor any bucket |
| OptionsSource.BucketSizesAppend | Config/Source/OptionsAbstract.php:208-213 | one more option adds one entry to the listed buckets when its group is listed, and none otherwise |
| OptionsSource.BucketsPartitionGroupedOptions | Config/Source/OptionsAbstract.php:201-216 | together the buckets hold exactly as many entries as there are options with a group, so each grouped option lands in exactly one bucket |
| OptionsSource.Existing | Config/Source/OptionsAbstract.php:209 | `$optionsSorted[$g]` as `$optionsSorted[$g][] =` extends it: the stored bucket, or the empty list when g has none yet |
| OptionsSource.BucketStep | Config/Source/OptionsAbstract.php:208-213 | appending an option's entry to its group's bucket (creating the bucket at the end if new) keeps the buckets equal to those of the options seen |
| OptionsSource.GroupEntries | Config/Source/OptionsAbstract.php:180-185 | the optgroup entries appended for the checked `(group => label)` pairs: exactly one per pair |
| OptionsSource.GroupEntriesAt | Config/Source/OptionsAbstract.php:180-185 | one optgroup entry per checked group, the i-th with the translated label and the bucket of the i-th group |
| OptionsSource.PresentGroups | Config/Source/OptionsAbstract.php:176-178 | the groups kept from `$groups` are a subsequence of `$groups`; a pair is kept exactly when some option carries its group; every kept group has a non-empty bucket |
| OptionsSource.GroupingFollowsGroupList | Config/Source/OptionsAbstract.php:173-186 | options in the order morning, evening, grouped with the list evening, morning, give the Evening optgroup first |
| OptionsSource.OptionsAbstract.constructor | Config/Source/OptionsAbstract.php:52-62 | starts with the given catalog, no filtered options and no grouped options |
| OptionsSource.OptionsAbstract.GetProductoptions | Config/Source/OptionsAbstract.php:84-95 | restricts to supported codes first (when `$checkAvailable` is not strictly false), then flag-filters the restricted catalog (only when `$flags` is an array, otherwise the filtered set is left exactly as it was), then returns the select-box list |
| OptionsSource.OptionsAbstract.SetFilterdOptions | Config/Source/OptionsAbstract.php:100-107 | discards the previous filtered set and makes it the catalog filtered by the flags; the catalog is not changed |
| OptionsSource.OptionsAbstract.SetOptionsByFlagFilters | Config/Source/OptionsAbstract.php:117-126 | when the option matches a flag, stores the catalog entry for the code under that code; otherwise changes nothing |
| OptionsSource.OptionsAbstract.SetOptionsBySupportedType | Config/Source/OptionsAbstract.php:132-148 | replaces the catalog by its restriction to the supported codes of the configuration string |
| OptionsSource.OptionsAbstract.GetOptionArrayUsableForConfiguration | Config/Source/OptionsAbstract.php:153-165 | an empty filtered set gives exactly `[{0, __("There are no available options")}]`; otherwise one translated `{value, label}` per filtered option, in filtered order |
| OptionsSource.OptionsAbstract.SetGroupedOptions | Config/Source/OptionsAbstract.php:173-186 | leaves the existing optgroup entries and appends one per group of `$groups` that has options, in `$groups` order, with the bucket of that group |
| OptionsSource.OptionsAbstract.GetGroupedOptions | Config/Source/OptionsAbstract.php:191-194 | returns the accumulated optgroup entries |
| OptionsSource.OptionsAbstract.GetOptionsArrayForGrouped | Config/Source/OptionsAbstract.php:201-216 | the result's keys are the groups in order of first appearance, and each key's bucket holds the translated entries of the options with that group, in input order |
| PostcodecheckBilling.Truthy | Plugin/Postcodecheck/Management/Billing.php:53 | PHP truthiness of the house number: null, `""` and `"0"` are falsy, so a truthy number is a non-empty string and `"0"` is not truthy |
| PostcodecheckBilling.AsString | Plugin/Postcodecheck/Management/Billing.php:58-60 | a string or null as `.` concatenates it: null contributes `""` |
| PostcodecheckBilling.FirstLine | Plugin/Postcodecheck/Management/Billing.php:58 | `$address->getStreet()[0]`: the first street line, or `""` (null) when the street has no line |
| PostcodecheckBilling.AssignedStreet | Plugin/Postcodecheck/Management/Billing.php:47-61 | no extension attributes, or a falsy house number: street unchanged; otherwise a single line made of the first line, a space, the house number, a space and the addition, with later lines dropped |
| PostcodecheckBilling.TrailingSpaceWithoutAddition | Plugin/Postcodecheck/Management/Billing.php:57-61 | with an empty or missing addition, the rewritten line ends in a space |
| PostcodecheckBilling.RewriteNotIdempotent | Plugin/Postcodecheck/Management/Billing.php:57-61 | for every street and truthy house number, applying the rewrite to its own result gives the first line followed twice by " number addition", which differs from the result of one rewrite |
| PostcodecheckBilling.RewriteTwiceExample | Plugin/Postcodecheck/Management/Billing.php:57-61 | the street `["Main"]` with house number 12 and addition A, rewritten twice, is `["Main 12 A 12 A"]` |
| PostcodecheckBilling.BeforeAssign | Plugin/Postcodecheck/Management/Billing.php:47-64 | returns cartId, the same address object and shipping unchanged; only the address's street changes, and it becomes the street that the rewrite rule gives |

## Left out

- Other PHP types in option records: a float, array or object as `value`
  or as a flag value, a `label` that is not a string, an integer `group`,
  and a record without a `value` or `label` key. `Value` holds only null,
  bool, int and string, and a record always has a value and a label.
- Default arguments: `$flags = false` and `$checkAvailable = false` of
  `getProductoptions` and `$shipping = false` of `beforeAssign` are passed
  explicitly (`None`, `Bool(false)`, `false`).
- PHP loose equality (`==` in the flag test, `in_array` in the code
  restriction) and the coercion of numeric-string keys to integers. Keys
  are strings and values are compared strictly.
- `__()` translation is the constructor-supplied, uninterpreted function
  `translate`. The `ProductOptions` configuration provider is the string
  parameter `config` of `SetOptionsBySupportedType` and
  `GetProductoptions`. PHP's `array_filter` is `Filter`; the
  `\Zend\Stdlib\ArrayUtils` constants `ARRAY_FILTER_USE_KEY` and
  `ARRAY_FILTER_USE_BOTH` only choose what the callback is given, which
  the model's filter tests read directly.
- `$flags` of `getProductoptions` is `Option<map>`, with `None` standing
  for any non-array argument. `$checkAvailable` is a scalar `Value`
  tested against `Bool(false)`, so non-boolean arguments behave as in the
  source.
- OptionsSource.OptionsAbstract.SetOptionsByFlagFilters: requires the
  product code to be a catalog key. PHP would store `null` with a notice
  for an unknown code, and its only caller never passes one.
- OptionsSource.OptionsAbstract.constructor: `filterdOptions` and
  `groupedOptions` start empty, where PHP starts them as `null`. This
  leaves out the behaviour of `count(null)`. `getGroupedOptions` returns
  `[]`, not `null`, before any grouping. The catalog, which the concrete
  subclasses supply, is a constructor argument.
- An option whose `group` key is present with value `null` (PHP would
  bucket it under the key `""`). In the model `group` is either a string
  or absent.
- The return value of `setOptionsBySupportedType` (`null` on the only
  path that can run).
- PostcodecheckBilling.BeforeAssign: the unused `$subject` argument is
  dropped. `setStreet` with a string is modelled as a street of that one
  line. The house number and addition are strings or `null`; other PHP
  types and their string conversions are not modelled.
- `Observer/TIGPostNLShipmentSaveAfter/CreatePostNLShipment.php` and
  `Test/Fixtures/Quote/quoteCanNotBackorder.php` are not part of this
  model. They are framework wiring (repositories, event dispatch, test
  bootstrap) with no logic of their own beyond defaults for the parcel
  count and product code and a check for more than one parcel.
