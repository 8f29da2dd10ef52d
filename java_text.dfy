/** The two Java library calls whose behaviour decides which rows the
    reporting endpoints keep and what values they carry:
    `line.split("\t")` and `Integer.parseInt(text)`. */
module JavaText {
  import opened TextUtil
  import opened Seqs

  const Tab: char := '\t'

  // ---------------------------------------------------------------- split

  /** Every tab-separated field of `line`, empty ones included: the list
      `String.split` builds before it trims. */
  function Fields(line: string): (r: seq<string>)
    ensures |r| >= 1
    ensures forall k | 0 <= k < |r| :: Tab !in r[k]
  {
    if |line| == 0 then [""]
    else
      var rest := Fields(line[1..]);
      if line[0] == Tab then [""] + rest else [[line[0]] + rest[0]] + rest[1..]
  }

  /** `fs` without its trailing empty strings. */
  function DropTrailingEmpty(fs: seq<string>): (r: seq<string>)
    ensures |r| <= |fs| && r == fs[..|r|]
    ensures forall k | |r| <= k < |fs| :: fs[k] == ""
    ensures |r| == 0 || r[|r| - 1] != ""
  {
    if |fs| > 0 && fs[|fs| - 1] == "" then DropTrailingEmpty(fs[..|fs| - 1]) else fs
  }

  /** Java's `line.split("\t")` (limit 0). A line without a tab comes back
      whole, even when it is empty; otherwise the fields between tabs are
      returned with the trailing empty ones removed. */
  function Split(line: string): (r: seq<string>)
    ensures forall k | 0 <= k < |r| :: Tab !in r[k]
  {
    if Tab !in line then [line] else DropTrailingEmpty(Fields(line))
  }

  /** Gluing the fields back together with tabs gives the line. */
  lemma {:induction false} FieldsJoin(line: string)
    ensures Join(Fields(line), [Tab]) == line
  {
    if |line| > 0 {
      var rest := Fields(line[1..]);
      FieldsJoin(line[1..]);
      if line[0] == Tab {
        assert Fields(line) == [""] + rest;
        assert line == [Tab] + line[1..];
      } else {
        var fs := Fields(line);
        assert fs[1..] == rest[1..];
        if |rest| == 1 {
          assert line == [line[0]] + rest[0];
        } else {
          assert Join(rest, [Tab]) == rest[0] + [Tab] + Join(rest[1..], [Tab]);
          assert line == [line[0]] + line[1..];
        }
      }
    }
  }

  /** A line without a tab is one field. */
  lemma {:induction false} FieldsNoTab(line: string)
    requires Tab !in line
    ensures Fields(line) == [line]
  {
    if |line| > 0 {
      FieldsNoTab(line[1..]);
      assert line == [line[0]] + line[1..];
    }
  }

  /** What `split` returns is the field list with only empty fields cut from
      its end, and when the line has a tab the last field kept is non-empty. */
  lemma SplitShape(line: string)
    ensures |Split(line)| <= |Fields(line)|
    ensures Split(line) == Fields(line)[..|Split(line)|]
    ensures forall k | |Split(line)| <= k < |Fields(line)| :: Fields(line)[k] == ""
    ensures Tab in line ==> |Split(line)| == 0 || Split(line)[|Split(line)| - 1] != ""
  {
    if Tab !in line { FieldsNoTab(line); }
  }

  /** `"g\t"` has one field, so the two-column readers skip it; an empty line
      is one empty field; a lone tab has none. */
  lemma SplitExamples()
    ensures Split("g\t") == ["g"]
    ensures Split("") == [""]
    ensures Split("\t") == []
    ensures Split("a\t\tb") == ["a", "", "b"]
  {
    FieldsCons("", "");
    FieldsCons("g", "");
    FieldsCons("a", "\tb");
    FieldsCons("", "b");
    FieldsNoTab("b");
    assert "g" + [Tab] + "" == "g\t";
    assert "" + [Tab] + "" == "\t";
    assert "a" + [Tab] + "\tb" == "a\t\tb";
    assert "" + [Tab] + "b" == "\tb";
    assert Tab in "g\t" by { assert "g\t"[1] == Tab; }
    assert Tab in "\t" by { assert "\t"[0] == Tab; }
    assert Tab in "a\t\tb" by { assert "a\t\tb"[1] == Tab; }
  }

  /** Splitting a two-field line `a<TAB>b` with tab-free, non-empty `b` gives
      those two fields. */
  lemma {:induction false} SplitTwo(a: string, b: string)
    requires Tab !in a && Tab !in b && |b| > 0
    ensures Split(a + [Tab] + b) == [a, b]
  {
    FieldsCons(a, b);
    FieldsNoTab(b);
    assert Tab in a + [Tab] + b by { assert (a + [Tab] + b)[|a|] == Tab; }
  }

  /** A tab ends the first field. */
  lemma {:induction false} FieldsCons(a: string, rest: string)
    requires Tab !in a
    ensures Fields(a + [Tab] + rest) == [a] + Fields(rest)
  {
    if |a| == 0 {
      assert a + [Tab] + rest == [Tab] + rest;
      assert ([Tab] + rest)[1..] == rest;
    } else {
      FieldsCons(a[1..], rest);
      assert (a + [Tab] + rest)[1..] == a[1..] + [Tab] + rest;
      assert a == [a[0]] + a[1..];
    }
  }

  // ---------------------------------------------------------------- parseInt

  const IntMin: int := -0x8000_0000
  const IntMax: int := 0x7fff_ffff

  predicate InInt32(v: int) {
    IntMin <= v <= IntMax
  }

  /** The digit part of `text` and whether a minus sign precedes it: one
      leading `-` or `+` is taken as the sign. */
  function SignAndDigits(text: string): (bool, string)
    requires |text| > 0
  {
    if text[0] == '-' then (true, text[1..])
    else if text[0] == '+' then (false, text[1..])
    else (false, text)
  }

  /** Java's `Integer.parseInt(text)` with radix 10: an optional sign, at
      least one decimal digit and nothing else, and a value in the 32-bit
      range; anything else is a `NumberFormatException`, here `None`. */
  function ParseInt(text: string): (r: Option<int>)
    ensures r.Some? ==> InInt32(r.value)
  {
    if |text| == 0 then None
    else
      var (negative, digits) := SignAndDigits(text);
      if |digits| == 0 || !AllDigits(digits) then None
      else
        var v: int := if negative then 0 - DigitsValue(digits) else DigitsValue(digits);
        if InInt32(v) then Some(v) else None
  }

  /** The decimal text of an integer parses back to it exactly when the
      integer fits in 32 bits. */
  lemma ParseIntDecimal(n: int)
    ensures ParseInt(IntDecimal(n)) == if InInt32(n) then Some(n) else None
  {
    if n < 0 {
      NatDecimalValue(-n);
      var t := IntDecimal(n);
      assert t[1..] == NatDecimal(-n);
    } else {
      NatDecimalValue(n);
      var d := NatDecimal(n);
      assert d[0] != '-' && d[0] != '+' by { assert IsDigit(d[0]); }
    }
  }

  /** Anything that parses is a signed decimal numeral: every character after
      an optional leading sign is a digit. */
  lemma ParseIntAccepted(text: string)
    requires ParseInt(text).Some?
    ensures |text| > 0
    ensures forall i | 0 <= i < |text| :: IsDigit(text[i]) || (i == 0 && (text[0] == '-' || text[0] == '+'))
  {
    var (negative, digits) := SignAndDigits(text);
    if text[0] == '-' || text[0] == '+' {
      assert forall i | 1 <= i < |text| :: text[i] == digits[i - 1];
    }
  }

  /** Words, a lone sign, the empty text and leading blanks are rejected;
      leading zeros and a `+` sign are accepted. */
  lemma ParseIntExamples()
    ensures ParseInt("42") == Some(42)
    ensures ParseInt("+007") == Some(7)
    ensures ParseInt("abc") == None
    ensures ParseInt("") == None
    ensures ParseInt("-") == None
    ensures ParseInt(" 1") == None
  {
    assert DigitsValue("42") == 42 by {
      assert "42"[..1] == "4";
      assert "4"[..0] == "";
    }
    assert DigitsValue("007") == 7 by {
      assert "007"[..2] == "00";
      assert "00"[..1] == "0";
      assert "0"[..0] == "";
    }
    assert "+007"[1..] == "007";
    assert !AllDigits("abc") by { assert !IsDigit("abc"[0]); }
    assert !AllDigits(" 1") by { assert !IsDigit(" 1"[0]); }
    assert "-"[1..] == "";
  }
}
