/**
 The string operations the CLI's messages are built from: Python's `str.join`
 and `str.split`, prefix and substring tests (`in` on strings), and the decimal
 rendering of an `int` inside an f-string.
 */
module Text {
  import opened Options

  predicate StartsWith(s: string, prefix: string) {
    |prefix| <= |s| && s[..|prefix|] == prefix
  }

  /** `needle` occurs in `hay` starting at index `i`. */
  predicate OccursAt(needle: string, hay: string, i: int) {
    0 <= i <= |hay| - |needle| && hay[i..i + |needle|] == needle
  }

  /** Python's `needle in hay` for two strings. */
  predicate IsInfix(needle: string, hay: string) {
    exists i | 0 <= i <= |hay| - |needle| :: OccursAt(needle, hay, i)
  }

  lemma OccursInConcat(a: string, needle: string, b: string)
    ensures OccursAt(needle, a + needle + b, |a|)
    ensures IsInfix(needle, a + needle + b)
  {
    var s := a + needle + b;
    assert s[|a|..|a| + |needle|] == needle;
    assert OccursAt(needle, s, |a|);
  }

  lemma PrefixIsInfix(s: string, prefix: string)
    requires StartsWith(s, prefix)
    ensures IsInfix(prefix, s)
  {
    assert OccursAt(prefix, s, 0);
  }

  function TotalLength(items: seq<string>): nat {
    if |items| == 0 then 0 else |items[0]| + TotalLength(items[1..])
  }

  /** The separator the program puts between ingredients, in messages and menu lines. */
  const IngredientSeparator := ", "

  /** Python's `sep.join(items)`: the items in order, with `sep` between neighbours. */
  function Join(sep: string, items: seq<string>): string {
    if |items| == 0 then ""
    else if |items| == 1 then items[0]
    else items[0] + sep + Join(sep, items[1..])
  }

  /** The joined text is as long as the items together plus one separator between each two. */
  lemma {:induction false} JoinLength(sep: string, items: seq<string>)
    ensures |Join(sep, items)| == TotalLength(items) + (if |items| == 0 then 0 else |items| - 1) * |sep|
    decreases |items|
  {
    if |items| > 1 {
      JoinLength(sep, items[1..]);
    }
  }

  /**
   Python's `s.split(sep)` for a non-empty separator: the pieces between the
   non-overlapping occurrences of `sep`, found from left to right.
   */
  function Split(s: string, sep: string): (r: seq<string>)
    requires |sep| > 0
    ensures |r| > 0
    decreases |s|
  {
    if |s| < |sep| then [s]
    else if s[..|sep|] == sep then [""] + Split(s[|sep|..], sep)
    else
      var rest := Split(s[1..], sep);
      [[s[0]] + rest[0]] + rest[1..]
  }

  /**
   The text before the first occurrence of `sep` and the text after it, or
   `None` when `sep` does not occur (Python's `s.split(sep, 1)` with two parts).
   */
  function SplitHead(s: string, sep: string): (r: Option<(string, string)>)
    requires |sep| > 0
    ensures r.Some? ==> s == r.value.0 + sep + r.value.1
  {
    var parts := Split(s, sep);
    if |parts| < 2 then None
    else
      JoinSplit(s, sep);
      JoinUncons(sep, parts[0], parts[1..]);
      assert [parts[0]] + parts[1..] == parts;
      Some((parts[0], Join(sep, parts[1..])))
  }

  /** Joining a list with a first element `x`: that element, then the rest after a separator. */
  lemma JoinUncons(sep: string, x: string, rest: seq<string>)
    ensures Join(sep, [x] + rest) == if |rest| == 0 then x else x + sep + Join(sep, rest)
  {
    assert ([x] + rest)[1..] == rest;
  }

  lemma JoinOfTwo(sep: string, a: string, b: string)
    ensures Join(sep, [a, b]) == a + sep + b
  {
    assert [a, b][1..] == [b];
  }

  lemma JoinOfThree(sep: string, a: string, b: string, c: string)
    ensures Join(sep, [a, b, c]) == a + sep + b + sep + c
  {
    assert [a, b, c][1..] == [b, c];
    JoinOfTwo(sep, b, c);
  }

  lemma JoinOfFour(sep: string, a: string, b: string, c: string, d: string)
    ensures Join(sep, [a, b, c, d]) == a + sep + b + sep + c + sep + d
  {
    assert [a, b, c, d][1..] == [b, c, d];
    JoinOfThree(sep, b, c, d);
  }

  /** Splitting text that holds no first character of `sep` yields that text alone. */
  lemma {:induction false} SplitWithoutSep(x: string, sep: string)
    requires |sep| > 0 && sep[0] !in x
    ensures Split(x, sep) == [x]
    decreases |x|
  {
    if |x| >= |sep| {
      assert x[..|sep|][0] == x[0] != sep[0];
      SplitWithoutSep(x[1..], sep);
      assert [x[0]] + x[1..] == x;
    }
  }

  /** When `x` holds no first character of `sep`, the first piece of `x + sep + t` is exactly `x`. */
  lemma {:induction false} SplitAfterHead(x: string, sep: string, t: string)
    requires |sep| > 0 && sep[0] !in x
    ensures Split(x + sep + t, sep) == [x] + Split(t, sep)
    decreases |x|
  {
    var s := x + sep + t;
    if |x| == 0 {
      assert s == sep + t;
      assert s[..|sep|] == sep;
      assert s[|sep|..] == t;
    } else {
      assert s[..|sep|][0] == x[0] != sep[0];
      assert s[1..] == x[1..] + sep + t;
      SplitAfterHead(x[1..], sep, t);
      assert [x[0]] + x[1..] == x;
    }
  }

  /** Splitting undoes joining, provided no item contains the separator's first character. */
  lemma {:induction false} SplitJoin(sep: string, items: seq<string>)
    requires |sep| > 0 && |items| > 0
    requires forall i :: 0 <= i < |items| ==> sep[0] !in items[i]
    ensures Split(Join(sep, items), sep) == items
    decreases |items|
  {
    if |items| == 1 {
      SplitWithoutSep(items[0], sep);
    } else {
      SplitAfterHead(items[0], sep, Join(sep, items[1..]));
      SplitJoin(sep, items[1..]);
      assert [items[0]] + items[1..] == items;
    }
  }

  /**
   A list that splitting its join at `IngredientSeparator` gives back: at least
   one item, and no comma in any item.
   */
  predicate Separable(items: seq<string>) {
    && |items| > 0
    && forall i | 0 <= i < |items| :: ',' !in items[i]
  }

  /** Prepending a character to the first item prepends it to the joined text. */
  lemma JoinExtendHead(sep: string, c: char, items: seq<string>)
    requires |items| > 0
    ensures Join(sep, [[c] + items[0]] + items[1..]) == [c] + Join(sep, items)
  {
    JoinUncons(sep, [c] + items[0], items[1..]);
    JoinUncons(sep, items[0], items[1..]);
    assert [items[0]] + items[1..] == items;
  }

  /** Joining undoes splitting, for every text. */
  lemma {:induction false} JoinSplit(s: string, sep: string)
    requires |sep| > 0
    ensures Join(sep, Split(s, sep)) == s
    decreases |s|
  {
    if |s| < |sep| {
    } else if s[..|sep|] == sep {
      var tail := s[|sep|..];
      JoinSplit(tail, sep);
      SplitAtSep(s, sep);
      JoinEmptyHead(sep, Split(tail, sep));
      assert s == sep + tail;
    } else {
      var rest := Split(s[1..], sep);
      JoinSplit(s[1..], sep);
      SplitPastChar(s, sep);
      JoinExtendHead(sep, s[0], rest);
      assert s == [s[0]] + s[1..];
    }
  }

  /** Text that starts with the separator splits into an empty piece and the pieces after it. */
  lemma SplitAtSep(s: string, sep: string)
    requires |sep| > 0 && |s| >= |sep| && s[..|sep|] == sep
    ensures Split(s, sep) == [""] + Split(s[|sep|..], sep)
  {
  }

  /** Text that does not start with the separator has its first character prepended to the first piece. */
  lemma SplitPastChar(s: string, sep: string)
    requires |sep| > 0 && |s| >= |sep| && s[..|sep|] != sep
    ensures Split(s, sep) == [[s[0]] + Split(s[1..], sep)[0]] + Split(s[1..], sep)[1..]
  {
  }

  lemma JoinEmptyHead(sep: string, items: seq<string>)
    requires |items| > 0
    ensures Join(sep, [""] + items) == sep + Join(sep, items)
  {
    JoinUncons(sep, "", items);
    assert "" + sep == sep;
  }

  /** `SplitHead` finds `sep` right after a head that holds no first character of `sep`. */
  lemma SplitHeadAfter(head: string, sep: string, tail: string)
    requires |sep| > 0 && sep[0] !in head
    ensures SplitHead(head + sep + tail, sep) == Some((head, tail))
  {
    SplitAfterHead(head, sep, tail);
    JoinSplit(tail, sep);
    assert Split(head + sep + tail, sep)[1..] == Split(tail, sep);
  }

  predicate IsDigit(c: char) {
    '0' as int <= c as int <= '9' as int
  }

  function DigitChar(d: nat): (c: char)
    requires d < 10
    ensures IsDigit(c) && c as int - '0' as int == d
  {
    ('0' as int + d) as char
  }

  function DigitValue(c: char): (d: nat)
    requires IsDigit(c)
    ensures d < 10 && DigitChar(d) == c
  {
    c as int - '0' as int
  }

  /** The decimal text Python's `str` gives a non-negative `int`. */
  function DecimalString(n: nat): (r: string)
    ensures |r| > 0
    ensures forall i :: 0 <= i < |r| ==> IsDigit(r[i])
  {
    if n < 10 then [DigitChar(n)] else DecimalString(n / 10) + [DigitChar(n % 10)]
  }

  /** The value of a text of decimal digits. */
  function ParseDecimal(s: string): nat
    requires forall i :: 0 <= i < |s| ==> IsDigit(s[i])
  {
    if |s| == 0 then 0
    else ParseDecimal(s[..|s| - 1]) * 10 + DigitValue(s[|s| - 1])
  }

  lemma {:induction false} DecimalRoundTrip(n: nat)
    ensures ParseDecimal(DecimalString(n)) == n
  {
    if n >= 10 {
      var s := DecimalString(n);
      assert s[..|s| - 1] == DecimalString(n / 10);
      DecimalRoundTrip(n / 10);
    }
  }
}
