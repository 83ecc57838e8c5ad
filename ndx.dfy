/** `write_ndx_group`: one group of the index-group text format. A header
    line `[ name ]`, then the atom numbers, each right-aligned in a field of
    four characters (`%4ld`) and followed by a space, fifteen to a line, the
    last line ending after the last number. */
module Ndx {
  import opened Groan

  /** Numbers per line. */
  const PerLine: nat := 15
  /** Minimum field width of one number. */
  const Width: nat := 4

  function DigitChar(d: nat): char
    requires d < 10
  {
    ('0' as int + d) as char
  }

  /** The decimal digits of `n`, most significant first, without leading zeros. */
  function Digits(n: nat): string
  {
    if n < 10 then [DigitChar(n)] else Digits(n / 10) + [DigitChar(n % 10)]
  }

  /** `%ld`: the decimal form of `n`, with a leading minus sign when negative. */
  function Decimal(n: int): string
  {
    if n < 0 then "-" + Digits(-n) else Digits(n)
  }

  /** `k` spaces. */
  function Spaces(k: nat): string
  {
    if k == 0 then "" else " " + Spaces(k - 1)
  }

  /** A printf minimum field width: `s` right-aligned in `width` characters,
      padded with spaces on the left, and never truncated. */
  function PadLeft(s: string, width: nat): string
  {
    Spaces(if |s| < width then width - |s| else 0) + s
  }

  lemma {:induction false} DigitsShape(n: nat)
    ensures |Digits(n)| > 0
    ensures forall i :: 0 <= i < |Digits(n)| ==> '0' <= Digits(n)[i] <= '9'
  {
    if n >= 10 {
      DigitsShape(n / 10);
    }
  }

  lemma {:induction false} SpacesShape(k: nat)
    ensures |Spaces(k)| == k
    ensures forall i :: 0 <= i < k ==> Spaces(k)[i] == ' '
  {
    if k > 0 {
      SpacesShape(k - 1);
    }
  }

  /** `%4ld` never truncates: the padded field is at least four characters
      wide, exactly as wide as the number when that is wider, and ends with
      the number itself. */
  lemma PadLeftShape(s: string, width: nat)
    ensures |PadLeft(s, width)| == if |s| < width then width else |s|
    ensures PadLeft(s, width)[|PadLeft(s, width)| - |s|..] == s
    ensures forall i :: 0 <= i < |PadLeft(s, width)| - |s| ==> PadLeft(s, width)[i] == ' '
  {
    var k := if |s| < width then width - |s| else 0;
    SpacesShape(k);
    assert PadLeft(s, width)[k..] == s;
  }

  /** Entry `i` (0-based) of a group of `n` numbers: the number, padded, a
      space, and a line break when it is the 15th, 30th, ... number or the
      last one. */
  function Entry(num: int, i: nat, n: nat): string
  {
    PadLeft(Decimal(num), Width) + " " + (if (i + 1) % PerLine == 0 || i + 1 == n then "\n" else "")
  }

  /** The first `i` entries of the numbers `nums`. */
  function Entries(nums: seq<int>, i: nat): string
    requires i <= |nums|
  {
    if i == 0 then "" else Entries(nums, i - 1) + Entry(nums[i - 1], i - 1, |nums|)
  }

  function Header(name: string): string
  {
    "[ " + name + " ]\n"
  }

  /** The text `write_ndx_group` writes for a group named `name` holding
      atoms with the numbers `nums`. */
  function GroupText(name: string, nums: seq<int>): string
  {
    Header(name) + Entries(nums, |nums|)
  }

  /** The index-format numbers of the atoms of `sel`, in order. */
  function Numbers(system: seq<Atom>, sel: Selection): (nums: seq<int>)
    requires Refs(sel, |system|)
    ensures |nums| == |sel|
    ensures forall i :: 0 <= i < |sel| ==> nums[i] == system[sel[i]].gmxNumber
  {
    seq(|sel|, i requires 0 <= i < |sel| => system[sel[i]].gmxNumber)
  }

  /** `write_ndx_group(stream, name, sel)`; the text it writes to the stream is
      returned. */
  method WriteNdxGroup(system: seq<Atom>, name: string, sel: Selection) returns (text: string)
    requires Refs(sel, |system|)
    ensures text == GroupText(name, Numbers(system, sel))
  {
    ghost var nums := Numbers(system, sel);
    text := "[ " + name + " ]\n";
    for i := 0 to |sel|
      invariant text == Header(name) + Entries(nums, i)
    {
      ghost var before := text;
      var padded := PadLeft(Decimal(system[sel[i]].gmxNumber), Width);
      text := text + padded + " ";
      if (i + 1) % PerLine == 0 || i + 1 == |sel| {
        text := text + "\n";
      }
      AppendedEntry(nums[i], i, |nums|, before, text);
      WroteEntry(name, nums, i, before, text);
    }
  }

  lemma EntriesSnoc(nums: seq<int>, i: nat)
    requires i < |nums|
    ensures Entries(nums, i + 1) == Entries(nums, i) + Entry(nums[i], i, |nums|)
  {
  }

  lemma Assoc(a: string, b: string, c: string)
    ensures (a + b) + c == a + (b + c)
  {
  }

  /** What one iteration appends is entry `i`. */
  lemma AppendedEntry(num: int, i: nat, n: nat, before: string, after: string)
    requires var p := before + PadLeft(Decimal(num), Width) + " ";
             after == if (i + 1) % PerLine == 0 || i + 1 == n then p + "\n" else p
    ensures after == before + Entry(num, i, n)
  {
    var q := PadLeft(Decimal(num), Width) + " ";
    var nl := if (i + 1) % PerLine == 0 || i + 1 == n then "\n" else "";
    assert Entry(num, i, n) == q + nl;
    assert before + PadLeft(Decimal(num), Width) + " " == before + q;
    assert after == (before + q) + nl;
  }

  /** Appending entry `i` extends the text by one entry. */
  lemma WroteEntry(name: string, nums: seq<int>, i: nat, before: string, after: string)
    requires i < |nums|
    requires before == Header(name) + Entries(nums, i)
    requires after == before + Entry(nums[i], i, |nums|)
    ensures after == Header(name) + Entries(nums, i + 1)
  {
    EntriesSnoc(nums, i);
    Assoc(Header(name), Entries(nums, i), Entry(nums[i], i, |nums|));
  }

  // ---------------------------------------------------------------------
  // Reading a group body back: whitespace-separated decimal numbers.

  predicate IsSpace(c: char)
  {
    c == ' ' || c == '\n'
  }

  /** The longest prefix of `s` without white space. */
  function Word(s: string): (w: string)
    ensures |w| <= |s| && w == s[..|w|]
    ensures forall i :: 0 <= i < |w| ==> !IsSpace(w[i])
    ensures |w| < |s| ==> IsSpace(s[|w|])
  {
    if s == [] || IsSpace(s[0]) then []
    else
      var w' := Word(s[1..]);
      assert [s[0]] + w' == s[..1 + |w'|];
      [s[0]] + w'
  }

  /** The white-space separated tokens of `s`, in order. */
  function Tokens(s: string): seq<string>
    decreases |s|
  {
    if s == [] then []
    else if IsSpace(s[0]) then Tokens(s[1..])
    else
      var w := Word(s);
      [w] + Tokens(s[|w|..])
  }

  /** The value of a string of decimal digits. */
  function DigitsValue(s: string): int
  {
    if s == [] then 0 else DigitsValue(s[..|s| - 1]) * 10 + (s[|s| - 1] as int - '0' as int)
  }

  /** The value of an optionally signed decimal token. */
  function ParseDecimal(t: string): int
  {
    if t != [] && t[0] == '-' then -DigitsValue(t[1..]) else DigitsValue(t)
  }

  /** The values of the tokens `ts`, in order. */
  function ParseAll(ts: seq<string>): seq<int>
  {
    if ts == [] then [] else ParseAll(ts[..|ts| - 1]) + [ParseDecimal(ts[|ts| - 1])]
  }

  lemma {:induction false} DigitsRoundTrip(n: nat)
    ensures DigitsValue(Digits(n)) == n
  {
    if n >= 10 {
      DigitsRoundTrip(n / 10);
      var d := Digits(n);
      assert d[..|d| - 1] == Digits(n / 10);
    }
  }

  /** `%ld` is read back as the number written. */
  lemma DecimalRoundTrip(n: int)
    ensures ParseDecimal(Decimal(n)) == n
  {
    if n < 0 {
      DigitsRoundTrip(-n);
      assert Decimal(n)[1..] == Digits(-n);
    } else {
      DigitsRoundTrip(n);
      DigitsShape(n);
    }
  }

  lemma {:induction false} TokensSkipSpaces(k: nat, s: string)
    ensures Tokens(Spaces(k) + s) == Tokens(s)
  {
    if k > 0 {
      var rest := Spaces(k - 1) + s;
      var x := Spaces(k) + s;
      assert x == [' '] + rest;
      assert x != [] && x[0] == ' ' && x[1..] == rest;
      assert Tokens(x) == Tokens(rest);
      TokensSkipSpaces(k - 1, s);
    } else {
      assert Spaces(k) + s == s;
    }
  }

  lemma {:induction false} TokensOfSpace(s: string)
    requires forall i :: 0 <= i < |s| ==> IsSpace(s[i])
    ensures Tokens(s) == []
  {
    if s != [] {
      TokensOfSpace(s[1..]);
    }
  }

  /** A token that ends at a space is read whole. */
  lemma {:induction false} WordUpToSpace(w: string, tail: string)
    requires forall i :: 0 <= i < |w| ==> !IsSpace(w[i])
    requires tail != [] && IsSpace(tail[0])
    ensures Word(w + tail) == w
  {
    if w != [] {
      assert (w + tail)[1..] == w[1..] + tail;
      WordUpToSpace(w[1..], tail);
    }
  }

  /** Splitting on white space distributes over a concatenation whose left
      part ends in white space. */
  lemma {:induction false} TokensAppend(a: string, b: string)
    requires a == [] || IsSpace(a[|a| - 1])
    ensures Tokens(a + b) == Tokens(a) + Tokens(b)
    decreases |a|
  {
    if a == [] {
      assert a + b == b;
    } else if IsSpace(a[0]) {
      assert (a + b)[1..] == a[1..] + b;
      TokensAppend(a[1..], b);
    } else {
      var w := Word(a);
      TokensAfterWord(a, b);
      TokensAppend(a[|w|..], b);
      assert [w] + (Tokens(a[|w|..]) + Tokens(b)) == ([w] + Tokens(a[|w|..])) + Tokens(b);
    }
  }

  /** A word at the front of `a` that ends inside `a` is the first token of
      both `a` and `a + b`. */
  lemma TokensAfterWord(a: string, b: string)
    requires a != [] && !IsSpace(a[0]) && IsSpace(a[|a| - 1])
    ensures 0 < |Word(a)| < |a|
    ensures Tokens(a) == [Word(a)] + Tokens(a[|Word(a)|..])
    ensures Tokens(a + b) == [Word(a)] + Tokens(a[|Word(a)|..] + b)
  {
    var w := Word(a);
    var rest := a[|w|..] + b;
    assert |w| < |a|;
    assert w == a[..|w|];
    WordUpToSpace(w, rest);
    assert a + b == w + rest;
    assert (a + b)[|w|..] == rest;
    assert (a + b)[0] == a[0];
  }

  lemma DecimalHasNoSpace(n: int)
    ensures Decimal(n) != []
    ensures forall i :: 0 <= i < |Decimal(n)| ==> !IsSpace(Decimal(n)[i])
  {
    DigitsShape(if n < 0 then -n else n);
  }

  /** Every entry reads back as the decimal form of its number. */
  lemma EntryTokens(num: int, i: nat, n: nat)
    ensures Tokens(Entry(num, i, n)) == [Decimal(num)]
  {
    var d := Decimal(num);
    DecimalHasNoSpace(num);
    var k := if |d| < Width then Width - |d| else 0;
    var tail := " " + (if (i + 1) % PerLine == 0 || i + 1 == n then "\n" else "");
    assert Entry(num, i, n) == Spaces(k) + (d + tail);
    TokensSkipSpaces(k, d + tail);
    WordUpToSpace(d, tail);
    assert (d + tail)[|d|..] == tail;
    TokensOfSpace(tail);
  }

  lemma EntriesEndInSpace(nums: seq<int>, i: nat)
    requires 0 < i <= |nums|
    ensures IsSpace(Entries(nums, i)[|Entries(nums, i)| - 1])
  {
    assert Entries(nums, i) == Entries(nums, i - 1) + Entry(nums[i - 1], i - 1, |nums|);
  }

  /** Entry `i` adds exactly one token, the decimal form of number `i`. */
  lemma EntriesTokensStep(nums: seq<int>, i: nat)
    requires 0 < i <= |nums|
    ensures Tokens(Entries(nums, i)) == Tokens(Entries(nums, i - 1)) + [Decimal(nums[i - 1])]
  {
    if i > 1 {
      EntriesEndInSpace(nums, i - 1);
    }
    TokensAppend(Entries(nums, i - 1), Entry(nums[i - 1], i - 1, |nums|));
    EntryTokens(nums[i - 1], i - 1, |nums|);
  }

  lemma ParseAllSnoc(ts: seq<string>, t: string)
    ensures ParseAll(ts + [t]) == ParseAll(ts) + [ParseDecimal(t)]
  {
    assert (ts + [t])[..|ts|] == ts;
  }

  lemma ParseOneMore(ts: seq<string>, nums: seq<int>, i: nat)
    requires 0 < i <= |nums|
    requires ParseAll(ts) == nums[..i - 1]
    ensures ParseAll(ts + [Decimal(nums[i - 1])]) == nums[..i]
  {
    ParseAllSnoc(ts, Decimal(nums[i - 1]));
    DecimalRoundTrip(nums[i - 1]);
    assert nums[..i] == nums[..i - 1] + [nums[i - 1]];
  }

  /** The first `i` entries read back as the first `i` numbers. */
  predicate ReadsBack(nums: seq<int>, i: nat)
    requires i <= |nums|
  {
    ParseAll(Tokens(Entries(nums, i))) == nums[..i]
  }

  lemma {:induction false} EntriesTokens(nums: seq<int>, i: nat)
    requires i <= |nums|
    ensures ReadsBack(nums, i)
  {
    if i > 0 {
      EntriesTokens(nums, i - 1);
      EntriesReadOneMore(nums, i);
    }
  }

  lemma EntriesReadOneMore(nums: seq<int>, i: nat)
    requires 0 < i <= |nums|
    requires ReadsBack(nums, i - 1)
    ensures ReadsBack(nums, i)
  {
    var ts := Tokens(Entries(nums, i - 1));
    EntriesTokensStep(nums, i);
    ParseOneMore(ts, nums, i);
  }

  /** Round trip: the body of a written group reads back as exactly the atom
      numbers of the group, in order. */
  lemma ReadBack(name: string, nums: seq<int>)
    ensures GroupText(name, nums) == Header(name) + Entries(nums, |nums|)
    ensures ParseAll(Tokens(Entries(nums, |nums|))) == nums
  {
    EntriesTokens(nums, |nums|);
  }

  // ---------------------------------------------------------------------
  // Line structure.

  function Count(s: string, c: char): nat
  {
    if s == [] then 0 else Count(s[..|s| - 1], c) + (if s[|s| - 1] == c then 1 else 0)
  }

  lemma {:induction false} CountAppend(a: string, b: string, c: char)
    ensures Count(a + b, c) == Count(a, c) + Count(b, c)
    decreases |b|
  {
    if b != [] {
      assert (a + b)[..|a + b| - 1] == a + b[..|b| - 1];
      CountAppend(a, b[..|b| - 1], c);
    } else {
      assert a + b == a;
    }
  }

  lemma {:induction false} CountAbsent(s: string, c: char)
    requires forall i :: 0 <= i < |s| ==> s[i] != c
    ensures Count(s, c) == 0
  {
    if s != [] {
      CountAbsent(s[..|s| - 1], c);
    }
  }

  /** An entry holds a line break exactly when it closes a line, and then as
      its last character; otherwise it ends with the separating space. */
  lemma EntryNewlines(num: int, i: nat, n: nat)
    ensures Count(Entry(num, i, n), '\n') == if (i + 1) % PerLine == 0 || i + 1 == n then 1 else 0
    ensures Entry(num, i, n)[|Entry(num, i, n)| - 1] == if (i + 1) % PerLine == 0 || i + 1 == n then '\n' else ' '
  {
    var d := Decimal(num);
    DecimalHasNoSpace(num);
    var k := if |d| < Width then Width - |d| else 0;
    SpacesShape(k);
    var nl := if (i + 1) % PerLine == 0 || i + 1 == n then "\n" else "";
    CountAbsent(Spaces(k), '\n');
    CountAbsent(d, '\n');
    CountAbsent(" ", '\n');
    CountAppend(Spaces(k), d, '\n');
    CountAppend(Spaces(k) + d, " ", '\n');
    CountAppend(Spaces(k) + d + " ", nl, '\n');
  }

  /** The line breaks among the first `i` of `n` entries: one per 15 entries
      before the last entry, and one more for the last entry. */
  function LinesAfter(i: nat, n: nat): nat
  {
    if i == n && i > 0 then (i - 1) / PerLine + 1 else i / PerLine
  }

  /** Before the last entry, every 15th entry ends a line; the last entry
      always does. */
  lemma {:induction false} EntriesNewlines(nums: seq<int>, i: nat)
    requires i <= |nums|
    ensures Count(Entries(nums, i), '\n') == LinesAfter(i, |nums|)
  {
    if i > 0 {
      EntriesNewlines(nums, i - 1);
      EntriesNewlinesStep(nums, i);
    }
  }

  lemma EntriesNewlinesStep(nums: seq<int>, i: nat)
    requires 0 < i <= |nums|
    requires Count(Entries(nums, i - 1), '\n') == LinesAfter(i - 1, |nums|)
    ensures Count(Entries(nums, i), '\n') == LinesAfter(i, |nums|)
  {
    EntriesSnoc(nums, i - 1);
    CountAppend(Entries(nums, i - 1), Entry(nums[i - 1], i - 1, |nums|), '\n');
    EntryNewlines(nums[i - 1], i - 1, |nums|);
    if i < |nums| {
      LineArithmetic(i);
    }
  }

  lemma LineArithmetic(i: nat)
    requires i > 0
    ensures (i - 1) / PerLine + (if i % PerLine == 0 then 1 else 0) == i / PerLine
  {
  }

  /** A group of `n` atoms takes the header line and `ceil(n / 15)` lines of
      numbers; an empty group is its header alone. */
  lemma GroupLines(name: string, nums: seq<int>)
    requires forall i :: 0 <= i < |name| ==> name[i] != '\n'
    ensures Count(GroupText(name, nums), '\n') == 1 + (|nums| + PerLine - 1) / PerLine
    ensures nums == [] ==> GroupText(name, nums) == Header(name)
  {
    var h := Header(name);
    assert forall i :: 0 <= i < |h| - 1 ==> h[i] != '\n' by {
      forall i | 0 <= i < |h| - 1 ensures h[i] != '\n' {
        if 2 <= i < 2 + |name| {
          assert h[i] == name[i - 2];
        }
      }
    }
    CountAbsent(h[..|h| - 1], '\n');
    assert h == h[..|h| - 1] + "\n";
    CountAppend(h[..|h| - 1], "\n", '\n');
    CountAppend(h, Entries(nums, |nums|), '\n');
    EntriesNewlines(nums, |nums|);
  }
}
