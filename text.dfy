/**
 * The Python string operations the updater relies on, with Python's
 * semantics: `str.split("\n")`, `"\n".join(...)`, `str.rstrip(chars)`,
 * `str.strip()`, ASCII `str.lower()`, `str(int)` and the substring test `in`.
 */
module Text {

  datatype Option<T> = None | Some(value: T)

  predicate StartsWith(s: string, prefix: string) {
    |prefix| <= |s| && s[..|prefix|] == prefix
  }

  /** Python's `needle in s`. */
  predicate Contains(s: string, needle: string)
    decreases |s|
  {
    StartsWith(s, needle) || (|s| > 0 && Contains(s[1..], needle))
  }

  /** `needle` stands in `s` at offset `i`. */
  predicate OccursAt(s: string, needle: string, i: nat) {
    i + |needle| <= |s| && s[i..i + |needle|] == needle
  }

  /** `needle in s` holds exactly when `needle` occurs at some offset of `s`. */
  lemma {:induction false} ContainsAt(s: string, needle: string)
    ensures Contains(s, needle) <==> exists i: nat :: OccursAt(s, needle, i)
    decreases |s|
  {
    if |s| > 0 {
      ContainsAt(s[1..], needle);
      if StartsWith(s, needle) {
        assert OccursAt(s, needle, 0);
      }
      if Contains(s[1..], needle) {
        var i: nat :| OccursAt(s[1..], needle, i);
        assert s[i + 1..i + 1 + |needle|] == s[1..][i..i + |needle|];
        assert OccursAt(s, needle, i + 1);
      }
      if i: nat :| OccursAt(s, needle, i) {
        if i > 0 {
          assert s[1..][i - 1..i - 1 + |needle|] == s[i..i + |needle|];
          assert OccursAt(s[1..], needle, i - 1);
        } else {
          assert StartsWith(s, needle);
        }
      }
    } else {
      if Contains(s, needle) {
        assert OccursAt(s, needle, 0);
      }
      if i: nat :| OccursAt(s, needle, i) {
        assert |needle| == 0 && s[..0] == needle;
        assert StartsWith(s, needle);
      }
    }
  }

  /** Python's `s.split("\n")`: never empty, and no piece holds a newline. */
  function Split(s: string): (lines: seq<string>)
    ensures |lines| >= 1
    ensures forall i :: 0 <= i < |lines| ==> '\n' !in lines[i]
    decreases |s|
  {
    if |s| == 0 then [""]
    else if s[0] == '\n' then [""] + Split(s[1..])
    else
      var rest := Split(s[1..]);
      [[s[0]] + rest[0]] + rest[1..]
  }

  /** Python's `"\n".join(lines)`. */
  function Join(lines: seq<string>): string
    decreases |lines|
  {
    if |lines| == 0 then ""
    else if |lines| == 1 then lines[0]
    else lines[0] + "\n" + Join(lines[1..])
  }

  predicate NoNewlines(lines: seq<string>) {
    forall i :: 0 <= i < |lines| ==> '\n' !in lines[i]
  }

  lemma JoinCons(x: string, rest: seq<string>)
    requires |rest| >= 1
    ensures Join([x] + rest) == x + "\n" + Join(rest)
  {
    assert ([x] + rest)[1..] == rest;
  }

  /** Joining the pieces of a split gives the original text back. */
  lemma {:induction false} JoinSplit(s: string)
    ensures Join(Split(s)) == s
    decreases |s|
  {
    if |s| > 0 {
      JoinSplit(s[1..]);
      if s[0] == '\n' {
        JoinSplitNewline(s);
      } else {
        JoinSplitChar(s);
      }
    }
  }

  /** `split` and `join` on a text that starts with a newline. */
  lemma JoinSplitNewline(s: string)
    requires |s| > 0 && s[0] == '\n' && Join(Split(s[1..])) == s[1..]
    ensures Join(Split(s)) == s
  {
    JoinCons("", Split(s[1..]));
    assert s == "\n" + s[1..];
  }

  /** `split` and `join` on a text that starts with any other character. */
  lemma JoinSplitChar(s: string)
    requires |s| > 0 && s[0] != '\n' && Join(Split(s[1..])) == s[1..]
    ensures Join(Split(s)) == s
  {
    var rest := Split(s[1..]);
    assert Split(s) == [[s[0]] + rest[0]] + rest[1..];
    JoinHead(s[0], rest, s[1..]);
    assert s == [s[0]] + s[1..];
  }

  /** Putting a character in front of the first line puts it in front of the joined text. */
  lemma JoinHead(c: char, rest: seq<string>, t: string)
    requires |rest| >= 1 && Join(rest) == t
    ensures Join([[c] + rest[0]] + rest[1..]) == [c] + t
  {
    var head, tail := [c] + rest[0], rest[1..];
    if |rest| == 1 {
      assert [head] + tail == [head];
    } else {
      JoinCons(head, tail);
      JoinCons(rest[0], tail);
      assert rest == [rest[0]] + tail;
      AppendAssoc3([c], rest[0], "\n", Join(tail));
    }
  }

  /** Regrouping a concatenation of four texts. */
  lemma AppendAssoc3(a: string, b: string, c: string, d: string)
    ensures a + b + c + d == a + (b + c + d)
  {
    assert a + b + c == a + (b + c);
    assert (a + (b + c)) + d == a + ((b + c) + d);
  }

  lemma {:induction false} SplitSingleLine(a: string)
    requires '\n' !in a
    ensures Split(a) == [a]
    decreases |a|
  {
    if |a| > 0 {
      assert '\n' !in a[1..] by {
        forall k | 0 <= k < |a[1..]| ensures a[1..][k] != '\n' {
          assert a[1..][k] == a[k + 1];
        }
      }
      SplitSingleLine(a[1..]);
      assert a == [a[0]] + a[1..];
    }
  }

  lemma {:induction false} SplitLineThenRest(a: string, b: string)
    requires '\n' !in a
    ensures Split(a + "\n" + b) == [a] + Split(b)
    decreases |a|
  {
    var s := a + "\n" + b;
    if |a| == 0 {
      assert s[1..] == b;
    } else {
      assert '\n' !in a[1..] by {
        forall k | 0 <= k < |a[1..]| ensures a[1..][k] != '\n' {
          assert a[1..][k] == a[k + 1];
        }
      }
      SplitLineThenRest(a[1..], b);
      assert s[1..] == a[1..] + "\n" + b;
      assert [s[0]] + a[1..] == a;
    }
  }

  /** Splitting the join of newline-free lines gives the lines back. */
  lemma {:induction false} SplitJoin(lines: seq<string>)
    requires |lines| >= 1 && NoNewlines(lines)
    ensures Split(Join(lines)) == lines
    decreases |lines|
  {
    if |lines| == 1 {
      SplitSingleLine(lines[0]);
    } else {
      assert '\n' !in lines[0];
      SplitJoin(lines[1..]);
      SplitLineThenRest(lines[0], Join(lines[1..]));
      assert lines == [lines[0]] + lines[1..];
    }
  }

  lemma {:induction false} JoinSnoc(lines: seq<string>, x: string)
    requires |lines| >= 1
    ensures Join(lines + [x]) == Join(lines) + "\n" + x
    decreases |lines|
  {
    if |lines| == 1 {
      JoinCons(lines[0], [x]);
    } else {
      assert (lines + [x])[1..] == lines[1..] + [x];
      JoinSnoc(lines[1..], x);
      JoinCons(lines[0], lines[1..] + [x]);
      JoinCons(lines[0], lines[1..]);
      assert lines + [x] == [lines[0]] + (lines[1..] + [x]);
      assert lines == [lines[0]] + lines[1..];
    }
  }

  /** Python's `s.rstrip(chars)`. */
  function RStripChars(s: string, chars: set<char>): string
    decreases |s|
  {
    if |s| > 0 && s[|s| - 1] in chars then RStripChars(s[..|s| - 1], chars) else s
  }

  /**
   * `rstrip` yields the longest prefix that does not end in one of `chars`:
   * everything it removes is in `chars`.
   */
  lemma {:induction false} RStripCharsSpec(s: string, chars: set<char>)
    ensures var r := RStripChars(s, chars);
      && r <= s
      && (|r| == 0 || r[|r| - 1] !in chars)
      && forall i :: |r| <= i < |s| ==> s[i] in chars
    decreases |s|
  {
    if |s| > 0 && s[|s| - 1] in chars {
      RStripCharsSpec(s[..|s| - 1], chars);
    }
  }

  /** The lines with every trailing empty line dropped. */
  function TrimEmpty(lines: seq<string>): (r: seq<string>)
    ensures r <= lines
    ensures |r| == 0 || r[|r| - 1] != ""
    ensures forall i :: |r| <= i < |lines| ==> lines[i] == ""
    decreases |lines|
  {
    if |lines| > 0 && lines[|lines| - 1] == "" then TrimEmpty(lines[..|lines| - 1]) else lines
  }

  /**
   * On joined newline-free lines, `rstrip("\n")` drops exactly the trailing
   * empty lines.
   */
  lemma {:induction false} RStripJoin(lines: seq<string>)
    requires NoNewlines(lines)
    ensures RStripChars(Join(lines), {'\n'}) == Join(TrimEmpty(lines))
    decreases |lines|
  {
    if |lines| > 0 {
      var init, last := lines[..|lines| - 1], lines[|lines| - 1];
      assert lines == init + [last];
      assert NoNewlines(init) by {
        forall i | 0 <= i < |init| ensures '\n' !in init[i] {
          assert init[i] == lines[i];
        }
      }
      assert '\n' !in last by {
        assert last == lines[|lines| - 1];
      }
      if last == "" {
        if |init| > 0 {
          RStripEmptyLast(init);
          RStripJoin(init);
        }
      } else {
        RStripKeepsLast(init, last);
      }
    }
  }

  /** Joining a trailing empty line adds one newline, which `rstrip` removes again. */
  lemma RStripEmptyLast(init: seq<string>)
    requires |init| > 0
    ensures RStripChars(Join(init + [""]), {'\n'}) == RStripChars(Join(init), {'\n'})
  {
    JoinSnoc(init, "");
    var s := Join(init + [""]);
    assert s == Join(init) + "\n";
    assert s[|s| - 1] == '\n';
    assert s[..|s| - 1] == Join(init);
  }

  /** A last line that is not empty and has no newline ends the joined text, which `rstrip` keeps. */
  lemma RStripKeepsLast(init: seq<string>, last: string)
    requires last != "" && '\n' !in last
    ensures RStripChars(Join(init + [last]), {'\n'}) == Join(init + [last])
  {
    var s := Join(init + [last]);
    if |init| == 0 {
      assert init + [last] == [last];
    } else {
      JoinSnoc(init, last);
    }
    assert s[|s| - 1] == last[|last| - 1];
    assert last[|last| - 1] in last;
  }

  /** Python's `s.lstrip(chars)`. */
  function LStripChars(s: string, chars: set<char>): string
    decreases |s|
  {
    if |s| > 0 && s[0] in chars then LStripChars(s[1..], chars) else s
  }

  /**
   * `lstrip` yields the longest suffix that does not start with one of
   * `chars`: everything it removes is in `chars`.
   */
  lemma {:induction false} LStripCharsSpec(s: string, chars: set<char>)
    ensures var r := LStripChars(s, chars);
      && |r| <= |s| && r == s[|s| - |r|..]
      && (|r| == 0 || r[0] !in chars)
      && forall i :: 0 <= i < |s| - |r| ==> s[i] in chars
    decreases |s|
  {
    if |s| > 0 && s[0] in chars {
      LStripCharsSpec(s[1..], chars);
      var r := LStripChars(s, chars);
      forall i | 0 <= i < |s| - |r| ensures s[i] in chars {
        if i > 0 {
          assert s[i] == s[1..][i - 1];
        }
      }
    }
  }

  /** The characters Python's `str.isspace` accepts among the first 128. */
  const Whitespace: set<char> :=
    {' ', '\t', '\n', '\r', 11 as char, 12 as char, 28 as char, 29 as char, 30 as char, 31 as char}

  /** Python's `s.strip()`, restricted to ASCII whitespace. */
  function Strip(s: string): string {
    RStripChars(LStripChars(s, Whitespace), Whitespace)
  }

  /** A text that neither starts nor ends with whitespace is its own strip. */
  lemma StripUnchanged(s: string)
    requires |s| > 0 && s[0] !in Whitespace && s[|s| - 1] !in Whitespace
    ensures Strip(s) == s
  {
    assert LStripChars(s, Whitespace) == s;
    assert RStripChars(s, Whitespace) == s;
  }

  /** `lstrip` removes exactly a leading run of stripped characters. */
  lemma {:induction false} LStripPadding(w: string, t: string, chars: set<char>)
    requires forall i :: 0 <= i < |w| ==> w[i] in chars
    requires t == "" || t[0] !in chars
    ensures LStripChars(w + t, chars) == t
    decreases |w|
  {
    if |w| == 0 {
      assert w + t == t;
    } else {
      assert (w + t)[1..] == w[1..] + t;
      LStripPadding(w[1..], t, chars);
    }
  }

  /** `rstrip` removes exactly a trailing run of stripped characters. */
  lemma {:induction false} RStripPadding(t: string, w: string, chars: set<char>)
    requires forall i :: 0 <= i < |w| ==> w[i] in chars
    requires t == "" || t[|t| - 1] !in chars
    ensures RStripChars(t + w, chars) == t
    decreases |w|
  {
    if |w| == 0 {
      assert t + w == t;
    } else {
      var s := t + w;
      assert s[|s| - 1] == w[|w| - 1];
      assert s[..|s| - 1] == t + w[..|w| - 1];
      RStripPadding(t, w[..|w| - 1], chars);
    }
  }

  /**
   * `strip()` removes whitespace around a text that neither starts nor ends
   * with whitespace, and nothing else.
   */
  lemma StripPadded(w1: string, a: string, w2: string)
    requires forall i :: 0 <= i < |w1| ==> w1[i] in Whitespace
    requires forall i :: 0 <= i < |w2| ==> w2[i] in Whitespace
    requires a == "" || (a[0] !in Whitespace && a[|a| - 1] !in Whitespace)
    ensures Strip(w1 + a + w2) == a
  {
    if a == "" {
      var w := w1 + w2;
      assert w1 + a + w2 == w;
      forall i | 0 <= i < |w| ensures w[i] in Whitespace {
        if i >= |w1| {
          assert w[i] == w2[i - |w1|];
        }
      }
      StripBlank(w);
    } else {
      assert w1 + a + w2 == w1 + (a + w2);
      assert (a + w2)[0] == a[0];
      LStripPadding(w1, a + w2, Whitespace);
      RStripPadding(a, w2, Whitespace);
    }
  }

  /** A text made only of whitespace strips to the empty text. */
  lemma StripBlank(s: string)
    requires forall i :: 0 <= i < |s| ==> s[i] in Whitespace
    ensures Strip(s) == ""
  {
    LStripCharsSpec(s, Whitespace);
  }

  function LowerChar(c: char): char {
    if 'A' <= c <= 'Z' then (c as int + 32) as char else c
  }

  /** Python's `s.lower()` on ASCII letters. */
  function LowerAscii(s: string): (r: string)
    ensures |r| == |s|
    ensures forall i :: 0 <= i < |s| ==> r[i] == LowerChar(s[i])
  {
    seq(|s|, i requires 0 <= i < |s| => LowerChar(s[i]))
  }

  predicate IsDigit(c: char) { '0' <= c <= '9' }

  function DigitChar(d: nat): (c: char)
    requires d < 10
    ensures IsDigit(c) && c as int - '0' as int == d
  {
    "0123456789"[d]
  }

  predicate AllDigits(s: string) {
    forall i :: 0 <= i < |s| ==> IsDigit(s[i])
  }

  /** The number a run of decimal digits spells, most significant first. */
  function DigitsValue(s: string): nat
    requires AllDigits(s)
    decreases |s|
  {
    if |s| == 0 then 0 else DigitsValue(s[..|s| - 1]) * 10 + (s[|s| - 1] as int - '0' as int)
  }

  /** Python's `str(n)` for a non-negative integer: the decimal digits of `n`, without leading zeros. */
  function NatToString(n: nat): (s: string)
    ensures |s| >= 1 && AllDigits(s)
    ensures DigitsValue(s) == n
    ensures s[0] == '0' ==> s == "0"
    decreases n
  {
    if n < 10 then [DigitChar(n)]
    else
      var init := NatToString(n / 10);
      var s := init + [DigitChar(n % 10)];
      assert s[..|s| - 1] == init;
      s
  }

  /** Python's `str(n)`: an optional minus sign followed by digits, so never a newline. */
  function IntToString(n: int): (s: string)
    ensures |s| >= 1
    ensures (s[0] == '-') <==> n < 0
    ensures n >= 0 ==> IsDigit(s[0])
    ensures forall i :: 0 < i < |s| ==> IsDigit(s[i])
    ensures '\n' !in s
  {
    if n < 0 then "-" + NatToString(-n) else NatToString(n)
  }

  /** The digits of `str(n)` spell `n`: its value without the sign, and the sign says which. */
  lemma IntToStringValue(n: int)
    ensures var s := IntToString(n);
      && (n >= 0 ==> AllDigits(s) && DigitsValue(s) == n)
      && (n < 0 ==> AllDigits(s[1..]) && DigitsValue(s[1..]) == -n)
  {
    if n < 0 {
      assert IntToString(n)[1..] == NatToString(-n);
    }
  }

  /** Different integers are written differently. */
  lemma IntToStringInjective(a: int, b: int)
    requires IntToString(a) == IntToString(b)
    ensures a == b
  {
    IntToStringValue(a);
    IntToStringValue(b);
  }
}
