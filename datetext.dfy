/** The date strings of the server's records, `"YYYY-MM-DD"`, and how the normaliser reads
    them: `t.split('-')`, then its first two fields converted to numbers
    (assets/js/main.js:173-175). */
module DateText {
  import opened Wrappers

  /** `s.split(sep)` for a one-character separator: one field more than there are
      separators, none of them containing the separator. */
  function Split(s: string, sep: char): (fields: seq<string>)
    ensures |fields| >= 1
    ensures forall i :: 0 <= i < |fields| ==> sep !in fields[i]
  {
    if s == [] then [[]]
    else
      var rest := Split(s[1..], sep);
      if s[0] == sep then [[]] + rest else [[s[0]] + rest[0]] + rest[1..]
  }

  /** `fields.join(sep)`, the inverse of `Split`. */
  function Join(fields: seq<string>, sep: char): (s: string)
    requires |fields| >= 1
  {
    if |fields| == 1 then fields[0] else fields[0] + [sep] + Join(fields[1..], sep)
  }

  lemma {:induction false} JoinSplit(s: string, sep: char)
    ensures Join(Split(s, sep), sep) == s
  {
    if s != [] {
      var rest := Split(s[1..], sep);
      JoinSplit(s[1..], sep);
      if s[0] == sep {
        assert ([[]] + rest)[1..] == rest;
      } else if |rest| > 1 {
        assert Join(rest, sep) == rest[0] + [sep] + Join(rest[1..], sep);
        assert ([[s[0]] + rest[0]] + rest[1..])[1..] == rest[1..];
      }
    }
  }

  /** Splitting `f + tail`, where `f` holds no separator, glues `f` onto the first field of `tail`. */
  lemma {:induction false} SplitPrefix(f: string, tail: string, sep: char)
    requires sep !in f
    ensures Split(f + tail, sep) == [f + Split(tail, sep)[0]] + Split(tail, sep)[1..]
  {
    if f != [] {
      assert (f + tail)[1..] == f[1..] + tail;
      SplitPrefix(f[1..], tail, sep);
      assert [f[0]] + (f[1..] + Split(tail, sep)[0]) == f + Split(tail, sep)[0];
    } else {
      var fields := Split(tail, sep);
      assert f + tail == tail;
      assert f + fields[0] == fields[0];
      assert [fields[0]] + fields[1..] == fields;
    }
  }

  lemma {:induction false} SplitJoin(fields: seq<string>, sep: char)
    requires |fields| >= 1
    requires forall i :: 0 <= i < |fields| ==> sep !in fields[i]
    ensures Split(Join(fields, sep), sep) == fields
  {
    if |fields| == 1 {
      SplitPrefix(fields[0], [], sep);
      assert Split([], sep) == [[]];
      assert fields[0] + [] == fields[0];
    } else {
      var tail := Join(fields[1..], sep);
      SplitJoin(fields[1..], sep);
      SplitPrefix(fields[0], [sep] + tail, sep);
      assert ([sep] + tail)[1..] == tail;
      var after := Split([sep] + tail, sep);
      assert after == [[]] + fields[1..];
      assert after[0] == [] && after[1..] == fields[1..];
      assert fields[0] + [sep] + tail == fields[0] + ([sep] + tail);
      assert fields[0] + after[0] == fields[0];
      assert [fields[0]] + fields[1..] == fields;
    }
  }

  predicate IsDigit(c: char)
  {
    '0' <= c <= '9'
  }

  /** A non-empty run of decimal digits: the only field shape this model converts to a number. */
  predicate IsDecimal(s: string)
  {
    |s| > 0 && forall i :: 0 <= i < |s| ==> IsDigit(s[i])
  }

  predicate AllDigits(s: string)
  {
    forall i :: 0 <= i < |s| ==> IsDigit(s[i])
  }

  /** The number a digit string denotes, as `Number(s)` converts it. */
  function Value(s: string): (n: nat)
    requires AllDigits(s)
  {
    if s == [] then 0 else Value(s[..|s| - 1]) * 10 + (s[|s| - 1] as int - '0' as int)
  }

  function DigitChar(d: nat): (c: char)
    requires d < 10
    ensures IsDigit(c)
  {
    ('0' as int + d) as char
  }

  /** The shortest decimal numeral of `n`. */
  function Digits(n: nat): (s: string)
    ensures IsDecimal(s)
  {
    if n < 10 then [DigitChar(n)] else Digits(n / 10) + [DigitChar(n % 10)]
  }

  /** `s` preceded by enough zeros to be at least `width` characters long. */
  function PadLeft(s: string, width: nat): (r: string)
    requires IsDecimal(s)
    ensures IsDecimal(r) && |r| >= width
  {
    if |s| >= width then s else seq(width - |s|, _ => '0') + s
  }

  lemma {:induction false} ValueOfDigits(n: nat)
    ensures Value(Digits(n)) == n
  {
    if n < 10 {
      assert [DigitChar(n)][..0] == [];
    } else {
      var s := Digits(n / 10) + [DigitChar(n % 10)];
      assert s[..|s| - 1] == Digits(n / 10);
      ValueOfDigits(n / 10);
    }
  }

  lemma {:induction false} ValueOfZeros(z: string)
    requires forall i :: 0 <= i < |z| ==> z[i] == '0'
    ensures AllDigits(z) && Value(z) == 0
  {
    if z != [] {
      ValueOfZeros(z[..|z| - 1]);
    }
  }

  /** Leading zeros do not change the value. */
  lemma {:induction false} ValueIgnoresLeadingZeros(z: string, s: string)
    requires forall i :: 0 <= i < |z| ==> z[i] == '0'
    requires AllDigits(s)
    ensures AllDigits(z + s) && Value(z + s) == Value(s)
  {
    if s == [] {
      assert z + s == z;
      ValueOfZeros(z);
    } else {
      var s' := s[..|s| - 1];
      assert (z + s)[..|z + s| - 1] == z + s';
      ValueIgnoresLeadingZeros(z, s');
    }
  }

  lemma ValueOfPadded(n: nat, width: nat)
    ensures Value(PadLeft(Digits(n), width)) == n
  {
    var s := Digits(n);
    ValueOfDigits(n);
    if |s| < width {
      ValueIgnoresLeadingZeros(seq(width - |s|, _ => '0'), s);
    }
  }

  /** The wire format of a record's `t` field. */
  function FormatDate(year: nat, month: nat, day: nat): (t: string)
  {
    Join([PadLeft(Digits(year), 4), PadLeft(Digits(month), 2), PadLeft(Digits(day), 2)], '-')
  }

  /** `let [year, month] = t.split('-')` followed by the numeric conversions of lines 174-175:
      `None` when a field is missing or is not a digit string. */
  function ParseYearMonth(t: string): (ym: Option<(int, int)>)
    ensures ym.Some? ==> ym.value.0 >= 0 && ym.value.1 >= 0
  {
    var fields := Split(t, '-');
    if |fields| >= 2 && IsDecimal(fields[0]) && IsDecimal(fields[1])
    then Some((Value(fields[0]), Value(fields[1])))
    else None
  }

  /** Reading a formatted date gives back its year and month. */
  lemma ParseFormatDate(year: nat, month: nat, day: nat)
    ensures ParseYearMonth(FormatDate(year, month, day)) == Some((year, month))
  {
    var fields := [PadLeft(Digits(year), 4), PadLeft(Digits(month), 2), PadLeft(Digits(day), 2)];
    forall i | 0 <= i < |fields| ensures '-' !in fields[i] {
      assert IsDecimal(fields[i]);
    }
    SplitJoin(fields, '-');
    ValueOfPadded(year, 4);
    ValueOfPadded(month, 2);
  }
}
