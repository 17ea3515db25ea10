/** The option list of the autocompleting select input,
    src/components/input/SelectInput.tsx: `sortAndFilter` and `getDisplayValue`.

    `toLowerCase` is the parameter `lower`, about which nothing is assumed. String
    order is the lexicographic order on characters. */
module SelectInput {
  import opened Wrappers

  datatype SelectOption = SelectOption(display: string, value: string)

  // ---------------------------------------------------------------------------
  // String order

  /** `a` and `b` agree before index `k`, where `a` has the smaller character. */
  predicate FirstDifferenceAt(a: string, b: string, k: int)
  {
    0 <= k < |a| && k < |b| && a[..k] == b[..k] && a[k] < b[k]
  }

  /** `a < b` on strings, computed a character at a time. */
  function LexLess(a: string, b: string): (r: bool)
    ensures r <==> (|a| < |b| && a == b[..|a|]) || exists k :: FirstDifferenceAt(a, b, k)
  {
    if |a| == 0 then |b| > 0
    else if |b| == 0 then false
    else if a[0] != b[0] then
      assert forall k :: 0 < k <= |a| && k <= |b| ==> a[..k][0] == a[0] && b[..k][0] == b[0];
      assert a[0] < b[0] ==> FirstDifferenceAt(a, b, 0);
      assert |a| <= |b| ==> b[..|a|][0] == b[0];
      a[0] < b[0]
    else
      var r := LexLess(a[1..], b[1..]);
      assert forall k :: FirstDifferenceAt(a, b, k) ==> k > 0 && FirstDifferenceAt(a[1..], b[1..], k - 1) by {
        forall k | FirstDifferenceAt(a, b, k)
          ensures k > 0 && FirstDifferenceAt(a[1..], b[1..], k - 1)
        {
          assert a[1..][..k - 1] == a[..k][1..] && b[1..][..k - 1] == b[..k][1..];
        }
      }
      assert forall k :: FirstDifferenceAt(a[1..], b[1..], k) ==> FirstDifferenceAt(a, b, k + 1) by {
        forall k | FirstDifferenceAt(a[1..], b[1..], k)
          ensures FirstDifferenceAt(a, b, k + 1)
        {
          assert a[..k + 1] == [a[0]] + a[1..][..k] && b[..k + 1] == [b[0]] + b[1..][..k];
        }
      }
      assert (|a| < |b| && a == b[..|a|]) <==> (|a[1..]| < |b[1..]| && a[1..] == b[1..][..|a[1..]|]) by {
        if |a| < |b| && a[1..] == b[1..][..|a[1..]|] {
          assert a == [a[0]] + a[1..] && b[..|a|] == [b[0]] + b[1..][..|a[1..]|];
        }
      }
      r
  }

  lemma {:induction false} LexLessIrreflexive(a: string)
    ensures !LexLess(a, a)
  {
    if |a| > 0 {
      LexLessIrreflexive(a[1..]);
    }
  }

  lemma {:induction false} LexLessTransitive(a: string, b: string, c: string)
    requires LexLess(a, b) && LexLess(b, c)
    ensures LexLess(a, c)
  {
    if |a| > 0 && |b| > 0 && |c| > 0 && a[0] == b[0] && b[0] == c[0] {
      LexLessTransitive(a[1..], b[1..], c[1..]);
    }
  }

  lemma {:induction false} LexLessTotal(a: string, b: string)
    ensures a == b || LexLess(a, b) || LexLess(b, a)
  {
    if |a| > 0 && |b| > 0 && a[0] == b[0] {
      LexLessTotal(a[1..], b[1..]);
      if a[1..] == b[1..] {
        assert a == [a[0]] + a[1..] && b == [b[0]] + b[1..];
      }
    }
  }

  /** "Not greater than" is transitive. */
  lemma NotLessTransitive(a: string, b: string, c: string)
    requires !LexLess(b, a) && !LexLess(c, b)
    ensures !LexLess(c, a)
  {
    if LexLess(c, a) {
      LexLessTotal(a, b);
      if a == b {
      } else {
        LexLessTransitive(c, a, b);
      }
    }
  }

  /** Non-decreasing by display. */
  predicate SortedByDisplay(s: seq<SelectOption>)
  {
    forall i, j :: 0 <= i < j < |s| ==> !LexLess(s[j].display, s[i].display)
  }

  // ---------------------------------------------------------------------------
  // Sorting

  /** Puts `x` into `s` before the first element that is not less than it. */
  function InsertByDisplay(x: SelectOption, s: seq<SelectOption>): (r: seq<SelectOption>)
    ensures multiset(r) == multiset(s) + multiset{x}
  {
    if |s| == 0 then [x]
    else if !LexLess(s[0].display, x.display) then [x] + s
    else
      assert s == [s[0]] + s[1..];
      [s[0]] + InsertByDisplay(x, s[1..])
  }

  lemma {:induction false} InsertKeepsSorted(x: SelectOption, s: seq<SelectOption>)
    requires SortedByDisplay(s)
    ensures SortedByDisplay(InsertByDisplay(x, s))
  {
    if |s| == 0 {
    } else if !LexLess(s[0].display, x.display) {
      PrependSorted(x, s);
    } else {
      InsertKeepsSorted(x, s[1..]);
      var tail := InsertByDisplay(x, s[1..]);
      assert !LexLess(x.display, s[0].display) by {
        if LexLess(x.display, s[0].display) {
          LexLessTransitive(x.display, s[0].display, x.display);
          LexLessIrreflexive(x.display);
        }
      }
      forall y: SelectOption | y in multiset(tail)
        ensures !LexLess(y.display, s[0].display)
      {
        if y != x {
          assert y in multiset(s[1..]);
          var k :| 0 <= k < |s[1..]| && s[1..][k] == y;
          assert s[k + 1] == y;
        }
      }
      ConsSorted(s[0], tail);
    }
  }

  /** Putting `x` before a sorted list whose head is not less than `x` keeps it sorted. */
  lemma PrependSorted(x: SelectOption, s: seq<SelectOption>)
    requires SortedByDisplay(s) && |s| > 0 && !LexLess(s[0].display, x.display)
    ensures SortedByDisplay([x] + s)
  {
    var r := [x] + s;
    forall i, j | 0 <= i < j < |r|
      ensures !LexLess(r[j].display, r[i].display)
    {
      if i == 0 && j > 1 {
        NotLessTransitive(x.display, s[0].display, s[j - 1].display);
      }
    }
  }

  /** Putting `y` before a sorted list none of whose elements is less than `y` keeps it sorted. */
  lemma ConsSorted(y: SelectOption, s: seq<SelectOption>)
    requires SortedByDisplay(s)
    requires forall z :: z in multiset(s) ==> !LexLess(z.display, y.display)
    ensures SortedByDisplay([y] + s)
  {
    var r := [y] + s;
    forall i, j | 0 <= i < j < |r|
      ensures !LexLess(r[j].display, r[i].display)
    {
      assert r[j] == s[j - 1];
      if i == 0 {
        assert s[j - 1] in multiset(s);
      } else {
        assert r[i] == s[i - 1];
      }
    }
  }

  /** A stand-in for Array.prototype.sort with the comparator
      `a.display < b.display ? -1 : 1`: an insertion sort. */
  function SortByDisplay(s: seq<SelectOption>): (r: seq<SelectOption>)
    ensures multiset(r) == multiset(s)
  {
    if |s| == 0 then []
    else
      assert s == s[..|s| - 1] + [s[|s| - 1]];
      InsertByDisplay(s[|s| - 1], SortByDisplay(s[..|s| - 1]))
  }

  lemma {:induction false} SortByDisplaySorted(s: seq<SelectOption>)
    ensures SortedByDisplay(SortByDisplay(s))
  {
    if |s| > 0 {
      SortByDisplaySorted(s[..|s| - 1]);
      InsertKeepsSorted(s[|s| - 1], SortByDisplay(s[..|s| - 1]));
    }
  }

  // ---------------------------------------------------------------------------
  // Filtering

  /** `t` occurs in `s` at index `i`. */
  predicate OccursAt(s: string, t: string, i: int)
  {
    0 <= i && i + |t| <= |s| && s[i..i + |t|] == t
  }

  /** `s.includes(t)`: every string contains the empty string and itself, and nothing
      longer than itself. */
  function Contains(s: string, t: string): (r: bool)
    ensures |t| == 0 ==> r
    ensures t == s ==> r
    ensures r ==> |t| <= |s|
  {
    assert OccursAt(s, t, 0) <== |t| == 0 || t == s;
    exists i :: 0 <= i <= |s| - |t| && OccursAt(s, t, i)
  }

  /** The filter test: the lower-cased display contains the lower-cased input. An
      input that lower-cases to the empty string matches every option. */
  function Matches(o: SelectOption, input: string, lower: string -> string): (r: bool)
    ensures lower(input) == "" ==> r
    ensures lower(o.display) == lower(input) ==> r
    ensures r ==> |lower(input)| <= |lower(o.display)|
  {
    Contains(lower(o.display), lower(input))
  }

  /** `.filter(o => o.display.toLowerCase().includes(input.toLowerCase()))`. */
  function FilterMatching(s: seq<SelectOption>, input: string, lower: string -> string): (r: seq<SelectOption>)
    ensures forall x :: multiset(r)[x] == if Matches(x, input, lower) then multiset(s)[x] else 0
  {
    if |s| == 0 then []
    else
      assert s == [s[0]] + s[1..];
      if Matches(s[0], input, lower) then [s[0]] + FilterMatching(s[1..], input, lower)
      else FilterMatching(s[1..], input, lower)
  }

  lemma {:induction false} FilterKeepsOrder(s: seq<SelectOption>, input: string, lower: string -> string)
    requires SortedByDisplay(s)
    ensures SortedByDisplay(FilterMatching(s, input, lower))
  {
    if |s| > 0 {
      var rest := FilterMatching(s[1..], input, lower);
      FilterKeepsOrder(s[1..], input, lower);
      if Matches(s[0], input, lower) {
        forall y: SelectOption | y in multiset(rest)
          ensures !LexLess(y.display, s[0].display)
        {
          assert y in multiset(s[1..]);
          var k :| 0 <= k < |s[1..]| && s[1..][k] == y;
          assert s[k + 1] == y;
        }
        ConsSorted(s[0], rest);
      }
    }
  }

  lemma FilterAllMatch(s: seq<SelectOption>, input: string, lower: string -> string)
    ensures forall i :: 0 <= i < |FilterMatching(s, input, lower)| ==> Matches(FilterMatching(s, input, lower)[i], input, lower)
  {
    var r := FilterMatching(s, input, lower);
    forall i | 0 <= i < |r|
      ensures Matches(r[i], input, lower)
    {
      assert multiset(r)[r[i]] > 0;
    }
  }

  // ---------------------------------------------------------------------------
  // sortAndFilter

  /** JavaScript truthiness of the optional `maxOptions`: absent and 0 are false. */
  predicate IsTruthy(maxOptions: Option<int>)
  {
    maxOptions.Some? && maxOptions.value != 0
  }

  /** Where `slice(0, end)` stops on a list of length `len`: a negative `end`
      counts back from the end of the list. */
  function SliceEnd(len: nat, end: int): (e: nat)
    ensures e <= len
    ensures end >= 0 ==> e == if end < len then end else len
    ensures end < 0 ==> e == if len + end > 0 then len + end else 0
  {
    if end >= 0 then (if end < len then end else len)
    else if len + end > 0 then len + end else 0
  }

  /** The raw option is put first when the input is non-empty and raw input is allowed. */
  predicate RawFirst(input: string, allowRawOption: bool)
  {
    input != "" && allowRawOption
  }

  /** `list` is a list `sortAndFilter` builds before any truncation: the raw option
      first when `RawFirst`, then the options whose lower-cased display contains the
      lower-cased input, each as often as in `options`, in non-decreasing display order. */
  ghost predicate Untruncated(list: seq<SelectOption>, options: seq<SelectOption>, input: string,
                              allowRawOption: bool, lower: string -> string)
  {
    var skip := if RawFirst(input, allowRawOption) then 1 else 0;
    && |list| >= skip
    && (RawFirst(input, allowRawOption) ==> list[0] == SelectOption(input, input))
    && SortedByDisplay(list[skip..])
    && multiset(list[skip..]) == multiset(FilterMatching(options, input, lower))
  }

  /** `maxOptions ? list.slice(0, maxOptions) : list`. */
  function Truncate(list: seq<SelectOption>, maxOptions: Option<int>): (r: seq<SelectOption>)
    ensures |r| <= |list| && forall i :: 0 <= i < |r| ==> r[i] == list[i]
  {
    if IsTruthy(maxOptions) then list[..SliceEnd(|list|, maxOptions.value)] else list
  }

  /** Past its first `skip` entries, a truncated list agrees with the untruncated one shifted by `skip`. */
  lemma TruncateShifts(list: seq<SelectOption>, maxOptions: Option<int>, skip: nat)
    requires skip <= |list|
    ensures var result := Truncate(list, maxOptions);
            |result| <= skip + |list[skip..]|
            && forall i :: skip <= i < |result| ==> result[i] == list[skip..][i - skip]
  {
  }

  /** A list that agrees, past its first `skip` entries, with a sorted one is sorted there. */
  lemma SortedShifted(rest: seq<SelectOption>, result: seq<SelectOption>, skip: nat)
    requires SortedByDisplay(rest)
    requires |result| <= skip + |rest|
    requires forall i :: skip <= i < |result| ==> result[i] == rest[i - skip]
    ensures forall i, j :: skip <= i < j < |result| ==> !LexLess(result[j].display, result[i].display)
  {
    forall i, j | skip <= i < j < |result|
      ensures !LexLess(result[j].display, result[i].display)
    {
      assert result[i] == rest[i - skip] && result[j] == rest[j - skip];
    }
  }

  /** Past the raw option, every option of a truncated list passes the filter. */
  lemma TruncatedMatch(list: seq<SelectOption>, options: seq<SelectOption>, input: string,
                       allowRawOption: bool, lower: string -> string, maxOptions: Option<int>)
    requires Untruncated(list, options, input, allowRawOption, lower)
    ensures var result := Truncate(list, maxOptions);
            var skip := if RawFirst(input, allowRawOption) then 1 else 0;
            forall i :: skip <= i < |result| ==> Matches(result[i], input, lower)
  {
    var result := Truncate(list, maxOptions);
    var skip := if RawFirst(input, allowRawOption) then 1 else 0;
    var rest := list[skip..];
    forall i | skip <= i < |result|
      ensures Matches(result[i], input, lower)
    {
      assert result[i] == rest[i - skip];
      assert rest[i - skip] in multiset(rest);
    }
  }

  /** Past the raw option, a truncated list is in non-decreasing display order. */
  lemma TruncatedSorted(list: seq<SelectOption>, options: seq<SelectOption>, input: string,
                        allowRawOption: bool, lower: string -> string, maxOptions: Option<int>)
    requires Untruncated(list, options, input, allowRawOption, lower)
    ensures var result := Truncate(list, maxOptions);
            var skip := if RawFirst(input, allowRawOption) then 1 else 0;
            forall i, j :: skip <= i < j < |result| ==> !LexLess(result[j].display, result[i].display)
  {
    var result := Truncate(list, maxOptions);
    var skip := if RawFirst(input, allowRawOption) then 1 else 0;
    TruncateShifts(list, maxOptions, skip);
    SortedShifted(list[skip..], result, skip);
  }

  /** sortAndFilter: the caller's `options` is a value, so the sort works on a copy. */
  method SortAndFilter(options: seq<SelectOption>, input: string, maxOptions: Option<int>,
                       allowRawOption: bool, lower: string -> string)
    returns (result: seq<SelectOption>)
    ensures exists list :: Untruncated(list, options, input, allowRawOption, lower) && result == Truncate(list, maxOptions)
    ensures IsTruthy(maxOptions) && maxOptions.value > 0 ==> |result| <= maxOptions.value
    ensures RawFirst(input, allowRawOption) && |result| > 0 ==> result[0] == SelectOption(input, input)
    ensures var skip := if RawFirst(input, allowRawOption) then 1 else 0;
            && (forall i :: skip <= i < |result| ==> Matches(result[i], input, lower))
            && (forall i, j :: skip <= i < j < |result| ==> !LexLess(result[j].display, result[i].display))
  {
    var sorted := SortByDisplay(options);
    var filtered := FilterMatching(sorted, input, lower);
    SortedMatches(options, input, lower);
    RawOptionFirst(filtered, options, input, allowRawOption, lower);
    if input != "" && allowRawOption {
      filtered := [SelectOption(input, input)] + filtered;
    }
    assert Untruncated(filtered, options, input, allowRawOption, lower);
    if maxOptions.Some? && maxOptions.value != 0 {
      result := filtered[..SliceEnd(|filtered|, maxOptions.value)];
    } else {
      result := filtered;
    }
    TruncatedShape(filtered, options, input, allowRawOption, lower, maxOptions, result);
  }

  /** What a truncation of an untruncated list keeps: at most `maxOptions` options when
      that is positive, the raw option first, and past it sorted matching options. */
  lemma TruncatedShape(list: seq<SelectOption>, options: seq<SelectOption>, input: string,
                       allowRawOption: bool, lower: string -> string, maxOptions: Option<int>,
                       result: seq<SelectOption>)
    requires Untruncated(list, options, input, allowRawOption, lower)
    requires result == Truncate(list, maxOptions)
    ensures exists list :: Untruncated(list, options, input, allowRawOption, lower) && result == Truncate(list, maxOptions)
    ensures IsTruthy(maxOptions) && maxOptions.value > 0 ==> |result| <= maxOptions.value
    ensures RawFirst(input, allowRawOption) && |result| > 0 ==> result[0] == SelectOption(input, input)
    ensures var skip := if RawFirst(input, allowRawOption) then 1 else 0;
            && (forall i :: skip <= i < |result| ==> Matches(result[i], input, lower))
            && (forall i, j :: skip <= i < j < |result| ==> !LexLess(result[j].display, result[i].display))
  {
    TruncatedMatch(list, options, input, allowRawOption, lower, maxOptions);
    TruncatedSorted(list, options, input, allowRawOption, lower, maxOptions);
  }

  /** Sorting and then filtering gives the matching options, sorted. */
  lemma SortedMatches(options: seq<SelectOption>, input: string, lower: string -> string)
    ensures SortedByDisplay(FilterMatching(SortByDisplay(options), input, lower))
    ensures multiset(FilterMatching(SortByDisplay(options), input, lower))
            == multiset(FilterMatching(options, input, lower))
  {
    SortByDisplaySorted(options);
    FilterKeepsOrder(SortByDisplay(options), input, lower);
    FilterPermutes(SortByDisplay(options), options, input, lower);
  }

  /** Putting the raw option in front of the sorted matching options, when the input
      asks for it, gives a list of the shape `Untruncated` describes. */
  lemma RawOptionFirst(rest: seq<SelectOption>, options: seq<SelectOption>, input: string,
                       allowRawOption: bool, lower: string -> string)
    requires SortedByDisplay(rest)
    requires multiset(rest) == multiset(FilterMatching(options, input, lower))
    ensures Untruncated(if RawFirst(input, allowRawOption) then [SelectOption(input, input)] + rest else rest,
                        options, input, allowRawOption, lower)
  {
    if RawFirst(input, allowRawOption) {
      assert ([SelectOption(input, input)] + rest)[1..] == rest;
    } else {
      assert rest[0..] == rest;
    }
  }

  /** Filtering two rearrangements of the same options keeps the same options. */
  lemma FilterPermutes(s: seq<SelectOption>, t: seq<SelectOption>, input: string, lower: string -> string)
    requires multiset(s) == multiset(t)
    ensures multiset(FilterMatching(s, input, lower)) == multiset(FilterMatching(t, input, lower))
  {
    var a := multiset(FilterMatching(s, input, lower));
    var b := multiset(FilterMatching(t, input, lower));
    forall x
      ensures a[x] == b[x]
    {
    }
  }

  /** With an empty input that lower-cases to itself and no raw option, the list is
      all the options, sorted. */
  lemma EmptyInputListsAll(list: seq<SelectOption>, options: seq<SelectOption>, allowRawOption: bool,
                           lower: string -> string)
    requires lower("") == ""
    requires Untruncated(list, options, "", allowRawOption, lower)
    ensures SortedByDisplay(list)
    ensures multiset(list) == multiset(options)
  {
    assert list[0..] == list;
    var f := multiset(FilterMatching(options, "", lower));
    forall x: SelectOption
      ensures f[x] == multiset(options)[x]
    {
      assert Matches(x, "", lower);
    }
  }

  /** Truncation keeps a prefix of the untruncated list; a positive `maxOptions` bounds its
      length, and a negative one drops that many options from the end. */
  lemma TruncationIsPrefix(list: seq<SelectOption>, maxOptions: int)
    requires maxOptions != 0
    ensures list[..SliceEnd(|list|, maxOptions)] <= list
    ensures maxOptions > 0 ==> |list[..SliceEnd(|list|, maxOptions)]| == if maxOptions < |list| then maxOptions else |list|
    ensures maxOptions < 0 && -maxOptions <= |list| ==> |list[..SliceEnd(|list|, maxOptions)]| == |list| + maxOptions
  {
  }

  // ---------------------------------------------------------------------------
  // getDisplayValue

  /** `options.find(o => o.value === value)`: the first option with that value. */
  function FindByValue(options: seq<SelectOption>, value: string): (r: Option<SelectOption>)
    ensures r.None? <==> forall i :: 0 <= i < |options| ==> options[i].value != value
    ensures r.Some? ==> exists i :: 0 <= i < |options| && options[i] == r.value && r.value.value == value
                                   && forall j :: 0 <= j < i ==> options[j].value != value
  {
    if |options| == 0 then None
    else if options[0].value == value then Some(options[0])
    else
      var r := FindByValue(options[1..], value);
      assert forall i :: 1 <= i < |options| ==> options[i] == options[1..][i - 1];
      r
  }

  /** The text the input shows for the selected value: nothing for no value; the
      display of the first option carrying it, when that display is non-empty;
      otherwise the value itself if raw input is allowed, else nothing. */
  function GetDisplayValue(options: seq<SelectOption>, optionValue: Option<string>, allowRawOption: bool)
    : (d: string)
    ensures optionValue.None? || optionValue.value == "" ==> d == ""
    ensures optionValue.Some? && optionValue.value != "" ==>
              var found := FindByValue(options, optionValue.value);
              if found.Some? && found.value.display != "" then d == found.value.display
              else if allowRawOption then d == optionValue.value
              else d == ""
  {
    if optionValue.None? || optionValue.value == "" then ""
    else
      var option := FindByValue(options, optionValue.value);
      if option.Some? && option.value.display != "" then option.value.display
      else if allowRawOption then optionValue.value
      else ""
  }

  /** The shown text is empty, the raw value, or the display of an option carrying the value. */
  lemma DisplayValueOrigin(options: seq<SelectOption>, value: string, allowRawOption: bool)
    ensures var d := GetDisplayValue(options, Some(value), allowRawOption);
            || d == ""
            || (allowRawOption && d == value)
            || exists i :: 0 <= i < |options| && options[i].value == value && options[i].display == d
  {
  }

  /** When option values are distinct and displays non-empty, selecting an option's
      value shows that option's display. */
  lemma DisplayOfSelectedOption(options: seq<SelectOption>, i: nat, allowRawOption: bool)
    requires i < |options|
    requires forall a, b :: 0 <= a < b < |options| ==> options[a].value != options[b].value
    requires options[i].value != "" && options[i].display != ""
    ensures GetDisplayValue(options, Some(options[i].value), allowRawOption) == options[i].display
  {
    var found := FindByValue(options, options[i].value);
    var k :| 0 <= k < |options| && options[k] == found.value && found.value.value == options[i].value
             && forall j :: 0 <= j < k ==> options[j].value != options[i].value;
    assert k == i;
  }
}
