// Numbers as text under a locale's digit grouping: what lexical_cast prints, what it accepts, and
// that the two are inverse, for an unsigned type of w values and the signed type of 2 * half values.
module GroupedText {
  import opened Arith
  import opened Decimal

  const CHAR_MAX := 127

  // A (signed) char.
  type SChar = x: int | -128 <= x < 128

  function Decrement(x: SChar): SChar {
    if x == -128 then 127 else x - 1
  }

  // Number of decrements until a char counter reads zero.
  function Count(remained: SChar): (n: nat) {
    if remained >= 0 then remained else remained + 256
  }

  // numpunct: the group sizes, right to left, and the separator.  The classic locale has no
  // grouping.
  datatype Locale = Locale(grouping: seq<SChar>, separator: char) {
    predicate Grouped() {
      |grouping| > 0 && grouping[0] > 0
    }

    // The size of the printer's next group: a size that is not positive means no more groups,
    // and after the last entry the last size repeats.
    function NextSize(group: nat, size: nat): (s: nat)
      requires 0 < size <= CHAR_MAX
      ensures 0 < s <= CHAR_MAX
    {
      if group + 1 < |grouping| then
        if grouping[group + 1] <= 0 then CHAR_MAX else grouping[group + 1]
      else size
    }

    // The parser's next group index, kept in an unsigned char.
    function NextIndex(k: nat): (k': nat)
      requires k < |grouping|
      ensures k' < |grouping|
    {
      if k < |grouping| - 1 then (k + 1) % 256 else k
    }
  }

  // --- What is printed ------------------------------------------------------------------------------

  // Digits with separators inserted from the right: `left` more digits go into group number
  // `group` of size `size`.
  function Group(digits: string, loc: Locale, group: nat, size: nat, left: nat): (text: string)
    requires 0 < size <= CHAR_MAX
    ensures |digits| <= |text|
    decreases |digits|
  {
    if digits == [] then []
    else
      var rest, d := digits[..|digits| - 1], digits[|digits| - 1];
      if left == 0 then
        var next := loc.NextSize(group, size);
        Group(rest, loc, group + 1, next, next - 1) + [d, loc.separator]
      else Group(rest, loc, group, size, left - 1) + [d]
  }

  function Printed(n: nat, loc: Locale): (text: string) {
    if loc.Grouped() then Group(Digits(n), loc, 0, loc.grouping[0], loc.grouping[0]) else Digits(n)
  }

  function PrintedSigned(n: int, loc: Locale): (text: string) {
    if n < 0 then "-" + Printed(-n, loc) else Printed(n, loc)
  }

  // --- What is parsed -------------------------------------------------------------------------------

  // The text left of the current position is digits with separators where the grouping expects
  // them: `remained` digits are still due before one.  Where a separator is due but absent,
  // everything that is left must be digits.
  predicate Shape(text: string, loc: Locale, k: nat, remained: SChar)
    requires k < |loc.grouping|
    decreases |text|
  {
    text == [] ||
    var rest, c := text[..|text| - 1], text[|text| - 1];
    if remained != 0 then IsDigit(c) && Shape(rest, loc, k, Decrement(remained))
    else if c == loc.separator then rest != [] && Shape(rest, loc, loc.NextIndex(k), loc.grouping[loc.NextIndex(k)])
    else AllDigits(text)
  }

  // The digits of such a text, without the separators.
  function Stripped(text: string, loc: Locale, k: nat, remained: SChar): (digits: string)
    requires k < |loc.grouping| && Shape(text, loc, k, remained)
    ensures AllDigits(digits)
    decreases |text|
  {
    if text == [] then []
    else
      var rest, c := text[..|text| - 1], text[|text| - 1];
      if remained != 0 then Stripped(rest, loc, k, Decrement(remained)) + [c]
      else if c == loc.separator then Stripped(rest, loc, loc.NextIndex(k), loc.grouping[loc.NextIndex(k)])
      else text
  }

  predicate WellFormed(text: string, loc: Locale) {
    text != [] &&
    var rest, c := text[..|text| - 1], text[|text| - 1];
    && IsDigit(c)
    && if loc.Grouped() then Shape(rest, loc, 0, loc.grouping[0] - 1) else AllDigits(rest)
  }

  function DigitsIn(text: string, loc: Locale): (digits: string)
    requires WellFormed(text, loc)
    ensures AllDigits(digits)
  {
    if loc.Grouped() then
      Stripped(text[..|text| - 1], loc, 0, loc.grouping[0] - 1) + [text[|text| - 1]]
    else text
  }

  // The value a text denotes, if it is well formed and the value fits below w.
  function ParseUnsigned(text: string, loc: Locale, w: nat): (r: Option<nat>) {
    if WellFormed(text, loc) && Value(DigitsIn(text, loc)) < w then Some(Value(DigitsIn(text, loc))) else None
  }

  function ParseSigned(text: string, loc: Locale, half: nat): (r: Option<int>) {
    var magnitude := ParseUnsigned(Body(text), loc, if Negative(text) then half + 1 else half);
    if magnitude.None? then None
    else Some(if Negative(text) then 0 - magnitude.value else magnitude.value)
  }

  // The digits of a text with separators thrown away wherever they stand.
  function OnlyDigits(text: string): (digits: string) {
    if text == [] then []
    else
      var rest, c := text[..|text| - 1], text[|text| - 1];
      OnlyDigits(rest) + (if IsDigit(c) then [c] else [])
  }

  lemma {:induction false} OnlyDigitsOfDigits(text: string)
    requires AllDigits(text)
    ensures OnlyDigits(text) == text
  {
    if text != [] {
      OnlyDigitsOfDigits(text[..|text| - 1]);
    }
  }

  lemma {:induction false} StrippedIsOnlyDigits(text: string, loc: Locale, k: nat, remained: SChar)
    requires !IsDigit(loc.separator) && k < |loc.grouping| && Shape(text, loc, k, remained)
    ensures Stripped(text, loc, k, remained) == OnlyDigits(text)
    decreases |text|
  {
    if text != [] {
      var rest, c := text[..|text| - 1], text[|text| - 1];
      if remained != 0 {
        StrippedIsOnlyDigits(rest, loc, k, Decrement(remained));
      } else if c == loc.separator {
        StrippedIsOnlyDigits(rest, loc, loc.NextIndex(k), loc.grouping[loc.NextIndex(k)]);
      } else {
        OnlyDigitsOfDigits(text);
      }
    }
  }

  // With a separator that is not a digit, an accepted text has the value of its digits with all
  // separators removed.
  lemma AcceptedValue(text: string, loc: Locale, w: nat)
    requires !IsDigit(loc.separator)
    ensures var r := ParseUnsigned(text, loc, w);
      r.Some? ==> AllDigits(OnlyDigits(text)) && r.value == Value(OnlyDigits(text))
  {
    if WellFormed(text, loc) {
      DigitsInAreOnlyDigits(text, loc);
    }
  }

  lemma DigitsInAreOnlyDigits(text: string, loc: Locale)
    requires !IsDigit(loc.separator) && WellFormed(text, loc)
    ensures DigitsIn(text, loc) == OnlyDigits(text)
  {
    if loc.Grouped() {
      StrippedIsOnlyDigits(text[..|text| - 1], loc, 0, loc.grouping[0] - 1);
    } else {
      OnlyDigitsOfDigits(text);
    }
  }

  // --- Groups ---------------------------------------------------------------------------------------

  // A head and, behind a separator each, the groups right of it; groups[0] is the rightmost.
  function Assembled(head: string, groups: seq<string>, separator: char): (text: string)
    ensures |head| <= |text|
  {
    if groups == [] then head else Assembled(head, groups[1..], separator) + [separator] + groups[0]
  }

  // The same digits without separators.
  function Together(head: string, groups: seq<string>): (digits: string) {
    if groups == [] then head else Together(head, groups[1..]) + groups[0]
  }

  // How many digits are printed into a group, counted from the right.
  function PrintedSize(loc: Locale, j: nat): (size: nat)
    requires loc.grouping != []
    ensures 0 < size <= CHAR_MAX
  {
    var entry := loc.grouping[if j < |loc.grouping| then j else |loc.grouping| - 1];
    if entry <= 0 then 127 else entry
  }

  // How many digits the parser wants in a group before it expects a separator: its index is an
  // unsigned char, and its counter a signed one that is only compared with zero.
  function ParsedSize(loc: Locale, j: nat): (size: nat)
    requires loc.grouping != []
  {
    var entry: int := loc.grouping[ParsedIndex(loc, j)];
    if entry >= 0 then entry else entry + 256
  }

  function ParsedIndex(loc: Locale, j: nat): (k: nat)
    requires loc.grouping != []
    ensures k < |loc.grouping|
  {
    if |loc.grouping| > 256 then j % 256 else if j < |loc.grouping| then j else |loc.grouping| - 1
  }

  ghost predicate Sized(groups: seq<string>, loc: Locale, j: nat)
    requires loc.grouping != []
  {
    forall i :: 0 <= i < |groups| ==> AllDigits(groups[i]) && |groups[i]| == ParsedSize(loc, j + i)
  }

  // Groups of the right sizes from group number j on, and digits before them.
  ghost predicate InGroups(text: string, loc: Locale, j: nat)
    requires loc.grouping != []
  {
    exists head, groups :: head != [] && AllDigits(head) && Sized(groups, loc, j) && text == Assembled(head, groups, loc.separator)
  }

  // A text is well formed under a grouping exactly when it is a non-empty string of digits
  // followed by groups of the wanted sizes, each behind a separator.
  lemma AcceptedGroups(text: string, loc: Locale)
    requires loc.grouping != [] && loc.grouping[0] > 0 && !IsDigit(loc.separator)
    ensures WellFormed(text, loc) <==> InGroups(text, loc, 0)
  {
    hide InGroups;
    ShapeIsGroups(text, loc, 0);
  }

  // Without a first size that is positive there are no groups.
  lemma UngroupedIsPlain(n: nat, text: string, loc: Locale)
    requires loc.grouping == [] || loc.grouping[0] <= 0
    ensures Printed(n, loc) == Digits(n)
    ensures WellFormed(text, loc) <==> text != [] && AllDigits(text)
  {
    if text != [] {
      AllDigitsLast(text);
    }
  }

  lemma {:induction false} ShapeIsGroups(text: string, loc: Locale, j: nat)
    requires loc.grouping != [] && !IsDigit(loc.separator)
    ensures text != [] && Shape(text, loc, ParsedIndex(loc, j), loc.grouping[ParsedIndex(loc, j)]) <==> InGroups(text, loc, j)
    decreases |text|
  {
    hide Shape, InGroups;
    var k := ParsedIndex(loc, j);
    ShapeByGroup(text, loc, k, loc.grouping[k]);
    GroupsByGroup(text, loc, j);
    var cut := |text| - ParsedSize(loc, j) - 1;
    if 0 < cut {
      ShapeIsGroups(text[..cut], loc, j + 1);
      NextParsedIndex(loc, j);
    }
  }

  lemma NextParsedIndex(loc: Locale, j: nat)
    requires loc.grouping != []
    ensures loc.NextIndex(ParsedIndex(loc, j)) == ParsedIndex(loc, j + 1)
  {
  }

  // A shape, one group at a time.
  lemma {:induction false} ShapeByGroup(text: string, loc: Locale, k: nat, remained: SChar)
    requires k < |loc.grouping| && !IsDigit(loc.separator)
    ensures var cut, k' := |text| - Count(remained) - 1, loc.NextIndex(k);
      Shape(text, loc, k, remained)
      <==> AllDigits(text)
           || (0 < cut && text[cut] == loc.separator && AllDigits(text[cut + 1..]) && Shape(text[..cut], loc, k', loc.grouping[k']))
    decreases |text|
  {
    if text != [] && remained != 0 {
      var n := |text| - 1;
      var rest, cut := text[..n], n - Count(remained);
      ShapeByGroup(rest, loc, k, Decrement(remained));
      AllDigitsLast(text);
      if 0 < cut {
        AllDigitsLast(text[cut + 1..]);
        assert text[cut + 1..][..n - cut - 1] == rest[cut + 1..];
        assert rest[..cut] == text[..cut];
      }
    }
  }

  lemma AllDigitsLast(text: string)
    requires text != []
    ensures AllDigits(text) <==> AllDigits(text[..|text| - 1]) && IsDigit(text[|text| - 1])
  {
    var n := |text| - 1;
    assert forall i :: 0 <= i < n ==> text[..n][i] == text[i];
  }

  // Groups, one at a time.
  lemma GroupsByGroup(text: string, loc: Locale, j: nat)
    requires loc.grouping != [] && !IsDigit(loc.separator)
    ensures var cut := |text| - ParsedSize(loc, j) - 1;
      InGroups(text, loc, j)
      <==> (text != [] && AllDigits(text))
           || (0 < cut && text[cut] == loc.separator && AllDigits(text[cut + 1..]) && InGroups(text[..cut], loc, j + 1))
  {
    hide ParsedSize;
    var cut := |text| - ParsedSize(loc, j) - 1;
    if InGroups(text, loc, j) {
      var head, groups :| head != [] && AllDigits(head) && Sized(groups, loc, j) && text == Assembled(head, groups, loc.separator);
      if groups != [] {
        var before := Assembled(head, groups[1..], loc.separator);
        assert text == before + [loc.separator] + groups[0];
        assert |groups[0]| == ParsedSize(loc, j + 0);
        assert text[..cut] == before && text[cut + 1..] == groups[0];
        assert Sized(groups[1..], loc, j + 1);
      }
    }
    if text != [] && AllDigits(text) {
      assert Assembled(text, [], loc.separator) == text && Sized([], loc, j);
    }
    if 0 < cut && text[cut] == loc.separator && AllDigits(text[cut + 1..]) && InGroups(text[..cut], loc, j + 1) {
      var head, groups :| head != [] && AllDigits(head) && Sized(groups, loc, j + 1)
                          && text[..cut] == Assembled(head, groups, loc.separator);
      OneMoreGroup(text, head, groups, loc, j, cut);
    }
  }

  lemma OneMoreGroup(text: string, head: string, groups: seq<string>, loc: Locale, j: nat, cut: nat)
    requires loc.grouping != [] && cut == |text| - ParsedSize(loc, j) - 1
    requires text[cut] == loc.separator && AllDigits(text[cut + 1..])
    requires head != [] && AllDigits(head) && Sized(groups, loc, j + 1)
    requires text[..cut] == Assembled(head, groups, loc.separator)
    ensures InGroups(text, loc, j)
  {
    hide ParsedSize;
    var more := [text[cut + 1..]] + groups;
    assert more[1..] == groups;
    assert text == text[..cut] + [loc.separator] + text[cut + 1..];
    forall i | 0 <= i < |more| ensures AllDigits(more[i]) && |more[i]| == ParsedSize(loc, j + i) {
      assert i > 0 ==> more[i] == groups[i - 1] && j + i == (j + 1) + (i - 1);
    }
    assert Sized(more, loc, j);
  }

  // What is printed, one group at a time.
  lemma {:induction false} GroupByGroup(digits: string, loc: Locale, group: nat, size: nat, left: nat)
    requires 0 < size <= CHAR_MAX
    ensures var cut, next := |digits| - left, loc.NextSize(group, size);
      Group(digits, loc, group, size, left)
      == if cut <= 0 then digits else Group(digits[..cut], loc, group + 1, next, next) + [loc.separator] + digits[cut..]
    decreases |digits|
  {
    hide *;
    if digits == [] {
      GroupOfNothing(loc, group, size, left);
    } else {
      var n := |digits| - 1;
      var rest, d, cut, next := digits[..n], digits[n], |digits| - left, loc.NextSize(group, size);
      assert digits == rest + [d];
      GroupLast(rest, d, loc, group, size, left);
      if left > 0 {
        GroupByGroup(rest, loc, group, size, left - 1);
        if cut > 0 {
          OneDigitMore(digits, cut, Group(digits[..cut], loc, group + 1, next, next) + [loc.separator]);
        }
      } else {
        GroupLast(rest, d, loc, group + 1, next, next);
        var inner := Group(rest, loc, group + 1, next, next - 1);
        assert digits[..cut] == digits && digits[cut..] == [];
        assert inner + [d] + [loc.separator] + [] == inner + [d, loc.separator];
      }
    }
  }

  lemma GroupOfNothing(loc: Locale, group: nat, size: nat, left: nat)
    requires 0 < size <= CHAR_MAX
    ensures Group([], loc, group, size, left) == []
  {
  }

  lemma OneDigitMore(digits: string, cut: nat, before: string)
    requires cut < |digits|
    ensures var n := |digits| - 1;
      digits[..n][..cut] == digits[..cut] && before + digits[..n][cut..] + [digits[n]] == before + digits[cut..]
  {
    var n := |digits| - 1;
    assert digits[cut..] == digits[..n][cut..] + [digits[n]];
  }

  // The digits of a number in groups: every group but the first is full.
  ghost predicate PrintedAs(digits: string, loc: Locale, group: nat, text: string, head: string, groups: seq<string>)
    requires loc.grouping != []
  {
    && head != [] && |head| <= PrintedSize(loc, group + |groups|)
    && (forall i :: 0 <= i < |groups| ==> |groups[i]| == PrintedSize(loc, group + i))
    && digits == Together(head, groups) && text == Assembled(head, groups, loc.separator)
  }

  lemma {:induction false} GroupIsAssembled(digits: string, loc: Locale, group: nat) returns (head: string, groups: seq<string>)
    requires loc.Grouped() && digits != []
    ensures var size := PrintedSize(loc, group);
      PrintedAs(digits, loc, group, Group(digits, loc, group, size, size), head, groups)
    decreases |digits|
  {
    hide Group;
    var size := PrintedSize(loc, group);
    GroupByGroup(digits, loc, group, size, size);
    if |digits| <= size {
      head, groups := digits, [];
    } else {
      var cut := |digits| - size;
      var left: seq<string>;
      head, left := GroupIsAssembled(digits[..cut], loc, group + 1);
      groups := [digits[cut..]] + left;
      assert groups[1..] == left && loc.NextSize(group, size) == PrintedSize(loc, group + 1);
      assert digits == digits[..cut] + digits[cut..];
      assert |groups| == |left| + 1;
      forall i | 0 <= i < |groups| ensures |groups[i]| == PrintedSize(loc, group + i) {
        assert i > 0 ==> groups[i] == left[i - 1] && group + i == (group + 1) + (i - 1);
      }
    }
  }

  // Under any grouping the digits are cut from the right into groups of the locale's sizes, an
  // entry that is not positive standing for 127 and the last entry repeating, with a separator
  // between two groups.
  lemma PrintedInGroups(n: nat, loc: Locale) returns (head: string, groups: seq<string>)
    requires loc.grouping != [] && loc.grouping[0] > 0
    ensures PrintedAs(Digits(n), loc, 0, Printed(n, loc), head, groups)
  {
    hide PrintedAs, Group;
    head, groups := GroupIsAssembled(Digits(n), loc, 0);
  }

  // --- Printing and parsing are inverse -----------------------------------------------------------

  // The parser's counters follow the printer's while groups of positive size last; after that
  // the printer writes no more separators and the parser never requires one.
  ghost predicate InStep(loc: Locale, len: nat, group: nat, size: nat, left: nat, k: nat, remained: SChar)
    requires k < |loc.grouping| && 0 < size <= CHAR_MAX
  {
    || (k == (if group < |loc.grouping| then group else |loc.grouping| - 1) && size == loc.grouping[k]
        && remained == left && k + len <= CHAR_MAX)
    || (len <= left && (remained == 0 || len <= Count(remained)))
  }

  lemma {:induction false} GroupWithoutSeparators(digits: string, loc: Locale, group: nat, size: nat, left: nat)
    requires 0 < size <= CHAR_MAX && |digits| <= left
    ensures Group(digits, loc, group, size, left) == digits
    decreases |digits|
  {
    if digits != [] {
      GroupWithoutSeparators(digits[..|digits| - 1], loc, group, size, left - 1);
    }
  }

  lemma ShapeOfDigit(rest: string, d: char, loc: Locale, k: nat, remained: SChar)
    requires k < |loc.grouping| && remained != 0 && IsDigit(d) && Shape(rest, loc, k, Decrement(remained))
    ensures Shape(rest + [d], loc, k, remained)
    ensures Stripped(rest + [d], loc, k, remained) == Stripped(rest, loc, k, Decrement(remained)) + [d]
  {
    assert (rest + [d])[..|rest|] == rest;
  }

  lemma ShapeOfSeparator(rest: string, loc: Locale, k: nat)
    requires k < |loc.grouping| && rest != [] && Shape(rest, loc, loc.NextIndex(k), loc.grouping[loc.NextIndex(k)])
    ensures Shape(rest + [loc.separator], loc, k, 0)
    ensures Stripped(rest + [loc.separator], loc, k, 0)
         == Stripped(rest, loc, loc.NextIndex(k), loc.grouping[loc.NextIndex(k)])
  {
    assert (rest + [loc.separator])[..|rest|] == rest;
  }

  // Digits only, where a separator is due.
  lemma ShapeOfPlain(digits: string, loc: Locale, k: nat)
    requires k < |loc.grouping| && AllDigits(digits) && !IsDigit(loc.separator)
    ensures Shape(digits, loc, k, 0) && Stripped(digits, loc, k, 0) == digits
  {
  }

  // After a digit, both counters have moved on by one.
  lemma InStepDigit(loc: Locale, len: nat, group: nat, size: nat, left: nat, k: nat, remained: SChar)
    requires k < |loc.grouping| && 0 < size <= CHAR_MAX && 0 < len && 0 < left && remained != 0
    requires InStep(loc, len, group, size, left, k, remained)
    ensures InStep(loc, len - 1, group, size, left - 1, k, Decrement(remained))
  {
  }

  // After a separator and the digit to its left.
  lemma InStepSeparator(loc: Locale, len: nat, group: nat, size: nat, k: nat)
    requires k < |loc.grouping| && 0 < size <= CHAR_MAX && 0 < len
    requires InStep(loc, len, group, size, 0, k, 0)
    ensures var next, k' := loc.NextSize(group, size), loc.NextIndex(k);
      && (loc.grouping[k'] == 0 ==> len <= next)
      && (loc.grouping[k'] != 0 ==> InStep(loc, len - 1, group + 1, next, next - 1, k', Decrement(loc.grouping[k'])))
  {
  }

  lemma {:induction false} GroupParses(digits: string, loc: Locale, group: nat, size: nat, left: nat, k: nat, remained: SChar)
    requires AllDigits(digits) && !IsDigit(loc.separator)
    requires 0 < size <= CHAR_MAX && k < |loc.grouping|
    requires InStep(loc, |digits|, group, size, left, k, remained)
    ensures Shape(Group(digits, loc, group, size, left), loc, k, remained)
    ensures Stripped(Group(digits, loc, group, size, left), loc, k, remained) == digits
    decreases |digits|
  {
    hide InStep, Shape, Stripped, Group;
    if digits == [] {
      NothingParses(loc, group, size, left, k, remained);
    } else if remained == 0 && left > 0 {
      PlainRestParses(digits, loc, group, size, left, k);
    } else {
      var n := |digits| - 1;
      var rest, d := digits[..n], digits[n];
      assert digits == rest + [d];
      GroupLast(rest, d, loc, group, size, left);
      if left > 0 {
        InStepDigit(loc, n + 1, group, size, left, k, remained);
        GroupParses(rest, loc, group, size, left - 1, k, Decrement(remained));
        ShapeOfDigit(Group(rest, loc, group, size, left - 1), d, loc, k, remained);
      } else {
        LeftIsRemained(loc, n + 1, group, size, k, remained);
        InStepSeparator(loc, n + 1, group, size, k);
        var next, k' := loc.NextSize(group, size), loc.NextIndex(k);
        if loc.grouping[k'] == 0 {
          GroupWithoutSeparators(rest, loc, group + 1, next, next - 1);
        } else {
          GroupParses(rest, loc, group + 1, next, next - 1, k', Decrement(loc.grouping[k']));
        }
        SeparatorParses(rest, d, Group(rest, loc, group + 1, next, next - 1), loc, k);
      }
    }
  }

  lemma NothingParses(loc: Locale, group: nat, size: nat, left: nat, k: nat, remained: SChar)
    requires 0 < size <= CHAR_MAX && k < |loc.grouping|
    ensures Shape(Group([], loc, group, size, left), loc, k, remained)
    ensures Stripped(Group([], loc, group, size, left), loc, k, remained) == []
  {
  }

  lemma PlainRestParses(digits: string, loc: Locale, group: nat, size: nat, left: nat, k: nat)
    requires AllDigits(digits) && !IsDigit(loc.separator)
    requires 0 < size <= CHAR_MAX && k < |loc.grouping| && digits != [] && 0 < left
    requires InStep(loc, |digits|, group, size, left, k, 0)
    ensures Shape(Group(digits, loc, group, size, left), loc, k, 0)
    ensures Stripped(Group(digits, loc, group, size, left), loc, k, 0) == digits
  {
    GroupWithoutSeparators(digits, loc, group, size, left);
    ShapeOfPlain(digits, loc, k);
  }

  // A separator, the digit left of it, and digits that parse from there.
  lemma SeparatorParses(rest: string, d: char, inner: string, loc: Locale, k: nat)
    requires AllDigits(rest) && IsDigit(d) && !IsDigit(loc.separator) && k < |loc.grouping|
    requires var due := loc.grouping[loc.NextIndex(k)];
      if due == 0 then inner == rest
      else Shape(inner, loc, loc.NextIndex(k), Decrement(due))
           && Stripped(inner, loc, loc.NextIndex(k), Decrement(due)) == rest
    ensures Shape(inner + [d, loc.separator], loc, k, 0)
    ensures Stripped(inner + [d, loc.separator], loc, k, 0) == rest + [d]
  {
    hide Shape, Stripped;
    var k' := loc.NextIndex(k);
    if loc.grouping[k'] == 0 {
      ShapeOfPlain(rest + [d], loc, k');
    } else {
      ShapeOfDigit(inner, d, loc, k', loc.grouping[k']);
    }
    ShapeOfSeparator(inner + [d], loc, k);
    assert inner + [d, loc.separator] == (inner + [d]) + [loc.separator];
  }

  // Group unfolded at its right end.
  lemma GroupLast(rest: string, d: char, loc: Locale, group: nat, size: nat, left: nat)
    requires 0 < size <= CHAR_MAX
    ensures var next := loc.NextSize(group, size);
      Group(rest + [d], loc, group, size, left)
      == if left == 0 then Group(rest, loc, group + 1, next, next - 1) + [d, loc.separator]
         else Group(rest, loc, group, size, left - 1) + [d]
  {
    assert (rest + [d])[..|rest|] == rest;
  }

  lemma LeftIsRemained(loc: Locale, len: nat, group: nat, size: nat, k: nat, remained: SChar)
    requires k < |loc.grouping| && 0 < size <= CHAR_MAX && 0 < len
    requires InStep(loc, len, group, size, 0, k, remained)
    ensures remained == 0
  {
  }

  // Every value is read back from what was printed, under any grouping.  The bound on w is the
  // static assertion that no group is unlimited by accident.
  lemma UnsignedRoundTrip(n: nat, w: nat, loc: Locale)
    requires n < w && Digits10(w) < CHAR_MAX && !IsDigit(loc.separator)
    ensures ParseUnsigned(Printed(n, loc), loc, w) == Some(n)
  {
    hide Shape, Stripped, Digits, Group;
    ValueOfDigits(n);
    if loc.Grouped() {
      PrintedParses(n, w, loc);
    }
  }

  lemma PrintedParses(n: nat, w: nat, loc: Locale)
    requires n < w && Digits10(w) < CHAR_MAX && !IsDigit(loc.separator) && loc.Grouped()
    ensures WellFormed(Printed(n, loc), loc) && DigitsIn(Printed(n, loc), loc) == Digits(n)
  {
    hide Shape, Stripped, Digits, Pow10, Digits10, Group, Value;
    var digits, size := Digits(n), loc.grouping[0];
    var rest, d := digits[..|digits| - 1], digits[|digits| - 1];
    Digits10Bounds(w);
    DigitsLength(n, Digits10(w) + 1);
    assert InStep(loc, |rest|, 0, size, size - 1, 0, size - 1);
    GroupParses(rest, loc, 0, size, size - 1, 0, size - 1);
    assert digits == rest + [d];
    GroupLast(rest, d, loc, 0, size, size);
    var inner := Group(rest, loc, 0, size, size - 1);
    assert (inner + [d])[..|inner|] == inner;
  }

  lemma {:induction false} GroupEnds(digits: string, loc: Locale, group: nat, size: nat, left: nat)
    requires AllDigits(digits) && digits != [] && 0 < size <= CHAR_MAX
    ensures var text := Group(digits, loc, group, size, left); text != [] && IsDigit(text[0])
    decreases |digits|
  {
    var rest := digits[..|digits| - 1];
    if rest != [] {
      if left == 0 {
        GroupEnds(rest, loc, group + 1, loc.NextSize(group, size), loc.NextSize(group, size) - 1);
      } else {
        GroupEnds(rest, loc, group, size, left - 1);
      }
    }
  }

  // Every signed value too, the minimum included.
  lemma SignedRoundTrip(n: int, half: nat, loc: Locale)
    requires 0 - half <= n < half && Digits10(2 * half) < CHAR_MAX && !IsDigit(loc.separator)
    ensures ParseSigned(PrintedSigned(n, loc), loc, half) == Some(n)
  {
    hide Printed, WellFormed, DigitsIn, Value;
    var text := PrintedSigned(n, loc);
    if n < 0 {
      assert text[1..] == Printed(-n, loc);
      UnsignedRoundTrip(-n, 2 * half, loc);
    } else {
      UnsignedRoundTrip(n, 2 * half, loc);
      PrintedStartsWithDigit(n, loc);
    }
  }

  // A sign is printed for negative numbers and for no others, in front of the magnitude.
  lemma SignOnlyWhenNegative(n: int, loc: Locale)
    requires !IsDigit(loc.separator)
    ensures var text := PrintedSigned(n, loc);
      && (HasSign(text) <==> n < 0) && (Negative(text) <==> n < 0) && Body(text) == Printed(if n < 0 then -n else n, loc)
  {
    if n < 0 {
      assert PrintedSigned(n, loc)[1..] == Printed(-n, loc);
    } else {
      PrintedStartsWithDigit(n, loc);
    }
  }

  lemma PrintedStartsWithDigit(n: nat, loc: Locale)
    ensures Printed(n, loc) != [] && IsDigit(Printed(n, loc)[0])
  {
    if loc.Grouped() {
      GroupEnds(Digits(n), loc, 0, loc.grouping[0], loc.grouping[0]);
    }
  }

  // --- The output fits its buffer -----------------------------------------------------------------

  lemma {:induction false} GroupLength(digits: string, loc: Locale, group: nat, size: nat, left: nat)
    requires 0 < size <= CHAR_MAX && digits != []
    ensures |Group(digits, loc, group, size, left)| <= 2 * |digits| - (if left > 0 then 1 else 0)
    decreases |digits|
  {
    var rest := digits[..|digits| - 1];
    if rest != [] {
      if left == 0 {
        GroupLength(rest, loc, group + 1, loc.NextSize(group, size), loc.NextSize(group, size) - 1);
      } else {
        GroupLength(rest, loc, group, size, left - 1);
      }
    }
  }

  // At most 1 + 2 * digits10 characters for a magnitude n <= w, and one more for the sign:
  // lcast_src_length.  The magnitude may reach w itself, as that of a signed minimum does.
  lemma PrintedLength(n: nat, w: nat, loc: Locale)
    requires 0 < w && n <= w
    ensures |Printed(n, loc)| <= 1 + 2 * Digits10(w)
  {
    Digits10Bounds(w);
    DigitsLength(n, Digits10(w) + 1);
    if loc.Grouped() {
      GroupLength(Digits(n), loc, 0, loc.grouping[0], loc.grouping[0]);
    }
  }

  // --- Where the separators stand ---------------------------------------------------------------------

  lemma AddModulus(x: nat, m: nat)
    requires 0 < m
    ensures (x + m) % m == x % m
  {
    DivUnique(x + m, m, x / m + 1, x % m);
  }

  // With a single group size g, counting from the right: a separator after every g digits, and
  // digits everywhere else.  `used` digits of the current group have been written already.
  lemma {:induction false} SeparatorsOf(digits: string, loc: Locale, group: nat, g: nat, used: nat, p: nat)
    requires loc.grouping == [g] && 0 < g <= CHAR_MAX && used <= g && AllDigits(digits) && !IsDigit(loc.separator)
    requires p < |Group(digits, loc, group, g, g - used)|
    ensures var text := Group(digits, loc, group, g, g - used);
      var c := text[|text| - 1 - p];
      if (p + used) % (g + 1) == g then c == loc.separator else IsDigit(c)
    decreases |digits|
  {
    var text := Group(digits, loc, group, g, g - used);
    var n := |digits| - 1;
    if used == g {
      if p == 0 {
        ModSmall(g, g + 1);
      } else if p == 1 {
        DivUnique(g + 1, g + 1, 1, 0);
        assert text[|text| - 2] == digits[n];
      } else {
        SeparatorsOf(digits[..n], loc, group + 1, g, 1, p - 2);
        AddModulus(p - 1, g + 1);
        assert p - 1 + (g + 1) == p + used;
      }
    } else if p == 0 {
      ModSmall(used, g + 1);
      assert text[|text| - 1] == digits[n];
    } else {
      SeparatorsOf(digits[..n], loc, group, g, used + 1, p - 1);
    }
  }

  lemma UniformSeparators(n: nat, loc: Locale, g: nat, p: nat)
    requires loc.grouping == [g] && 0 < g <= CHAR_MAX && !IsDigit(loc.separator) && p < |Printed(n, loc)|
    ensures Printed(n, loc)[|Printed(n, loc)| - 1 - p] == loc.separator <==> p % (g + 1) == g
  {
    SeparatorsOf(Digits(n), loc, 0, g, 0, p);
  }
}
