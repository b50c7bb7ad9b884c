/**
 * The pieces of Rust's `str` the OBJ loader uses: `trim`, `split(sep)`,
 * `split_whitespace`, `starts_with`, and `parse` into `u32` and `i32`.
 */
module Text {
  import opened Wrappers

  /** Unicode White_Space, which is what `char::is_whitespace` tests. */
  predicate IsWhitespace(c: char)
  {
    var n := c as int;
    (9 <= n <= 13) || n == 32 || n == 0x85 || n == 0xA0 || n == 0x1680 ||
    (0x2000 <= n <= 0x200A) || n == 0x2028 || n == 0x2029 || n == 0x202F ||
    n == 0x205F || n == 0x3000
  }

  predicate AllWhitespace(s: string)
  {
    forall k :: 0 <= k < |s| ==> IsWhitespace(s[k])
  }

  /** Where the leading whitespace of s ends: the first non-whitespace index, or |s|. */
  function LeadEnd(s: string): (i: nat)
    ensures i <= |s| && (i == |s| || !IsWhitespace(s[i]))
    ensures forall k :: 0 <= k < i ==> IsWhitespace(s[k])
  {
    if |s| == 0 || !IsWhitespace(s[0]) then 0
    else
      var i := LeadEnd(s[1..]);
      assert forall k :: 1 <= k < i + 1 ==> s[k] == s[1..][k - 1];
      i + 1
  }

  /** Where the trailing whitespace of s begins, looking no further left than lo. */
  function TrailStart(s: string, lo: nat): (j: nat)
    requires lo <= |s|
    ensures lo <= j <= |s| && (j == lo || !IsWhitespace(s[j - 1]))
    ensures forall k :: j <= k < |s| ==> IsWhitespace(s[k])
    decreases |s|
  {
    if |s| == lo || !IsWhitespace(s[|s| - 1]) then |s|
    else
      var j := TrailStart(s[..|s| - 1], lo);
      assert forall k :: j <= k < |s| - 1 ==> s[k] == s[..|s| - 1][k];
      j
  }

  /**
   * `str::trim`: s with its leading and trailing whitespace removed, and no
   * more; nothing is left exactly when s is all whitespace.
   */
  function Trim(s: string): (r: string)
    ensures |r| == 0 || (!IsWhitespace(r[0]) && !IsWhitespace(r[|r| - 1]))
    ensures exists i, j ::
      0 <= i <= j <= |s| && r == s[i..j] &&
      (forall k :: 0 <= k < i ==> IsWhitespace(s[k])) && (forall k :: j <= k < |s| ==> IsWhitespace(s[k]))
    ensures |r| == 0 <==> AllWhitespace(s)
  {
    var i := LeadEnd(s);
    var j := TrailStart(s, i);
    assert j > i ==> s[i..j][0] == s[i] && s[i..j][j - i - 1] == s[j - 1];
    assert i == j ==> forall k :: 0 <= k < |s| ==> IsWhitespace(s[k]);
    s[i..j]
  }

  predicate StartsWith(s: string, prefix: string)
  {
    prefix <= s
  }

  /** `str::split(sep)`: the pieces between separators, at least one, none holding sep. */
  function Split(s: string, sep: char): (r: seq<string>)
    ensures |r| >= 1
    ensures forall i :: 0 <= i < |r| ==> sep !in r[i]
    decreases |s|
  {
    if |s| == 0 then [""]
    else if s[0] == sep then [""] + Split(s[1..], sep)
    else
      var rest := Split(s[1..], sep);
      [[s[0]] + rest[0]] + rest[1..]
  }

  /** The pieces joined back with the separator. */
  function Join(parts: seq<string>, sep: char): string
  {
    if |parts| == 0 then ""
    else if |parts| == 1 then parts[0]
    else parts[0] + [sep] + Join(parts[1..], sep)
  }

  /** Splitting loses nothing: joining the pieces gives the string back. */
  lemma {:induction false} SplitJoin(s: string, sep: char)
    ensures Join(Split(s, sep), sep) == s
    decreases |s|
  {
    if |s| > 0 {
      SplitJoin(s[1..], sep);
      var rest := Split(s[1..], sep);
      if s[0] == sep {
        assert Split(s, sep) == [""] + rest;
      } else {
        var r := Split(s, sep);
        assert r[1..] == rest[1..];
        if |rest| == 1 {
          assert r == [[s[0]] + rest[0]];
        } else {
          assert Join(r, sep) == [s[0]] + rest[0] + [sep] + Join(rest[1..], sep);
        }
      }
    }
  }

  /** A string with no separator is one piece. */
  lemma {:induction false} SplitNoSep(a: string, sep: char)
    requires sep !in a
    ensures Split(a, sep) == [a]
    decreases |a|
  {
    if |a| > 0 {
      SplitNoSep(a[1..], sep);
      assert [a[0]] + a[1..] == a;
    }
  }

  /** A separator-free head followed by a separator splits off as the first piece. */
  lemma {:induction false} SplitCons(a: string, sep: char, b: string)
    requires sep !in a
    ensures Split(a + [sep] + b, sep) == [a] + Split(b, sep)
    decreases |a|
  {
    if |a| == 0 {
      assert a + [sep] + b == [sep] + b;
      assert ([sep] + b)[1..] == b;
    } else {
      var s := a + [sep] + b;
      assert s[1..] == a[1..] + [sep] + b;
      SplitCons(a[1..], sep, b);
      assert [a[0]] + a[1..] == a;
    }
  }

  /** Three separator-free pieces joined by the separator split back into those pieces. */
  lemma SplitThree(a: string, b: string, c: string, sep: char)
    requires sep !in a && sep !in b && sep !in c
    ensures Split(a + [sep] + b + [sep] + c, sep) == [a, b, c]
  {
    SplitTwo(a, b, sep);
    SplitSnoc(a + [sep] + b, sep, c);
  }

  /** A separator followed by a separator-free tail adds that tail as the last piece. */
  lemma {:induction false} SplitSnoc(x: string, sep: char, c: string)
    requires sep !in c
    ensures Split(x + [sep] + c, sep) == Split(x, sep) + [c]
    decreases |x|
  {
    var s := x + [sep] + c;
    if |x| == 0 {
      assert s == [sep] + c;
      assert s[1..] == c;
      SplitNoSep(c, sep);
    } else {
      assert s[0] == x[0];
      assert s[1..] == x[1..] + [sep] + c;
      SplitSnoc(x[1..], sep, c);
      var rest := Split(x[1..], sep);
      if x[0] != sep {
        assert (rest + [c])[0] == rest[0];
        assert (rest + [c])[1..] == rest[1..] + [c];
      }
    }
  }

  /** Two separator-free pieces joined by the separator split back into those pieces. */
  lemma SplitTwo(b: string, c: string, sep: char)
    requires sep !in b && sep !in c
    ensures Split(b + [sep] + c, sep) == [b, c]
  {
    SplitCons(b, sep, c);
    SplitNoSep(c, sep);
  }

  /** The longest prefix holding no whitespace. */
  function Word(s: string): (r: string)
    ensures r <= s
    ensures forall i :: 0 <= i < |r| ==> !IsWhitespace(r[i])
    ensures |s| > 0 && !IsWhitespace(s[0]) ==> |r| > 0
  {
    if |s| == 0 || IsWhitespace(s[0]) then "" else [s[0]] + Word(s[1..])
  }

  /** `str::split_whitespace`: the non-empty whitespace-free words, in order. */
  function SplitWhitespace(s: string): (r: seq<string>)
    ensures Words(r)
    decreases |s|
  {
    if |s| == 0 then []
    else if IsWhitespace(s[0]) then SplitWhitespace(s[1..])
    else
      var w := Word(s);
      [w] + SplitWhitespace(s[|w|..])
  }

  /** Non-empty strings holding no whitespace. */
  predicate Words(ws: seq<string>)
  {
    forall i :: 0 <= i < |ws| ==> |ws[i]| > 0 && forall j :: 0 <= j < |ws[i]| ==> !IsWhitespace(ws[i][j])
  }

  /** The characters of s that are not whitespace, in order. */
  function NonWhitespace(s: string): string
  {
    if |s| == 0 then ""
    else if IsWhitespace(s[0]) then NonWhitespace(s[1..])
    else [s[0]] + NonWhitespace(s[1..])
  }

  function Concat(ws: seq<string>): string
  {
    if |ws| == 0 then "" else ws[0] + Concat(ws[1..])
  }

  lemma {:induction false} NonWhitespaceAppend(a: string, b: string)
    ensures NonWhitespace(a + b) == NonWhitespace(a) + NonWhitespace(b)
    decreases |a|
  {
    if |a| > 0 {
      assert (a + b)[1..] == a[1..] + b;
      NonWhitespaceAppend(a[1..], b);
    } else {
      assert a + b == b;
    }
  }

  /** The word at the front of w + b is w when w has no whitespace and b is empty or starts with it. */
  lemma {:induction false} WordOf(w: string, b: string)
    requires forall j :: 0 <= j < |w| ==> !IsWhitespace(w[j])
    requires |b| == 0 || IsWhitespace(b[0])
    ensures Word(w + b) == w
    decreases |w|
  {
    if |w| == 0 {
      assert w + b == b;
    } else {
      assert (w + b)[1..] == w[1..] + b;
      WordOf(w[1..], b);
      assert [w[0]] + w[1..] == w;
    }
  }

  /** No word is lost or invented: the words concatenated are s without its whitespace. */
  lemma {:induction false} SplitWhitespaceKeepsText(s: string)
    ensures Concat(SplitWhitespace(s)) == NonWhitespace(s)
    decreases |s|
  {
    if |s| > 0 {
      SplitWhitespaceKeepsText(s[1..]);
      if !IsWhitespace(s[0]) {
        var w := Word(s);
        var rest := s[|w|..];
        SplitWhitespaceKeepsText(rest);
        assert s == w + rest;
        NonWhitespaceAppend(w, rest);
        assert NonWhitespace(w) == w by {
          NonWhitespaceOfWord(w);
        }
        assert SplitWhitespace(s)[1..] == SplitWhitespace(rest);
      }
    }
  }

  lemma {:induction false} NonWhitespaceOfWord(w: string)
    requires forall j :: 0 <= j < |w| ==> !IsWhitespace(w[j])
    ensures NonWhitespace(w) == w
    decreases |w|
  {
    if |w| > 0 {
      NonWhitespaceOfWord(w[1..]);
      assert [w[0]] + w[1..] == w;
    }
  }

  /** s has no words exactly when it is all whitespace. */
  lemma {:induction false} SplitWhitespaceEmpty(s: string)
    ensures SplitWhitespace(s) == [] <==> AllWhitespace(s)
    decreases |s|
  {
    if |s| > 0 {
      SplitWhitespaceEmpty(s[1..]);
      if IsWhitespace(s[0]) {
        assert AllWhitespace(s) <==> AllWhitespace(s[1..]) by {
          if AllWhitespace(s[1..]) {
            forall k | 0 <= k < |s| ensures IsWhitespace(s[k]) {
              if k > 0 { assert s[k] == s[1..][k - 1]; }
            }
          }
        }
      }
    }
  }

  /**
   * The words are the maximal whitespace-free runs: after leading whitespace
   * a, a run w that ends at whitespace or at the end is the next word.
   */
  lemma {:induction false} SplitWhitespaceCons(a: string, w: string, b: string)
    requires AllWhitespace(a) && Words([w])
    requires |b| == 0 || IsWhitespace(b[0])
    ensures SplitWhitespace(a + w + b) == [w] + SplitWhitespace(b)
    decreases |a|
  {
    var s := a + w + b;
    assert [w][0] == w;
    if |a| > 0 {
      assert s[1..] == a[1..] + w + b;
      SplitWhitespaceCons(a[1..], w, b);
    } else {
      assert s == w + b;
      WordOf(w, b);
      assert s[0] == w[0];
      assert s[|w|..] == b;
    }
  }

  /** Words joined by a whitespace character split back into those words. */
  lemma {:induction false} SplitWhitespaceJoin(ws: seq<string>, c: char)
    requires Words(ws) && IsWhitespace(c)
    ensures SplitWhitespace(Join(ws, c)) == ws
    decreases |ws|
  {
    if |ws| == 1 {
      SplitWhitespaceCons("", ws[0], "");
      assert "" + ws[0] + "" == ws[0];
    } else if |ws| > 1 {
      SplitWhitespaceJoin(ws[1..], c);
      var b := [c] + Join(ws[1..], c);
      SplitWhitespaceCons("", ws[0], b);
      assert "" + ws[0] + b == Join(ws, c);
      assert b[1..] == Join(ws[1..], c);
      assert SplitWhitespace(b) == SplitWhitespace(Join(ws[1..], c));
      assert [ws[0]] + ws[1..] == ws;
    }
  }

  predicate IsDigit(c: char)
  {
    '0' <= c <= '9'
  }

  predicate AllDigits(s: string)
  {
    forall i :: 0 <= i < |s| ==> IsDigit(s[i])
  }

  function DigitValue(c: char): nat
    requires IsDigit(c)
  {
    c as int - '0' as int
  }

  /** The decimal value of a run of digits, most significant first. */
  function DigitsValue(s: string): nat
    requires AllDigits(s)
  {
    if |s| == 0 then 0 else DigitsValue(s[..|s| - 1]) * 10 + DigitValue(s[|s| - 1])
  }

  const U32Limit: nat := 0x1_0000_0000
  const I32Limit: nat := 0x8000_0000

  /** Optional '+', then at least one digit (the unsigned accepted form of `str::parse`). */
  function UnsignedDigits(s: string): string
  {
    if |s| > 0 && s[0] == '+' then s[1..] else s
  }

  /** s with one leading sign, '+' or '-', dropped. */
  function Unsigned(s: string): string
  {
    if |s| > 0 && (s[0] == '+' || s[0] == '-') then s[1..] else s
  }

  /**
   * `str::parse::<u32>`: accepted strings are an optional '+' and at least
   * one digit, and the result is the value those digits spell; anything
   * else (another character anywhere, a '-', an empty string) is None.
   */
  function ParseU32(s: string): (r: Option<nat>)
    ensures r.Some? ==> r.value < U32Limit
    ensures r.Some? ==> forall i :: 0 <= i < |s| ==> IsDigit(s[i]) || (i == 0 && s[i] == '+')
    ensures r.Some? ==> |s| > 0 && IsDigit(s[|s| - 1])
    ensures r.Some? ==> AllDigits(Unsigned(s)) && DigitsValue(Unsigned(s)) == r.value
  {
    var d := UnsignedDigits(s);
    if |d| == 0 || !AllDigits(d) then None
    else if DigitsValue(d) < U32Limit then Some(DigitsValue(d))
    else None
  }

  /**
   * `str::parse::<i32>`: accepted strings are an optional sign and at least
   * one digit; the digits spell the magnitude of the result, which is
   * negative only after a '-'.
   */
  function ParseI32(s: string): (r: Option<int>)
    ensures r.Some? ==> -(I32Limit as int) <= r.value < I32Limit
    ensures r.Some? ==> forall i :: 0 <= i < |s| ==> IsDigit(s[i]) || (i == 0 && (s[i] == '+' || s[i] == '-'))
    ensures r.Some? ==> |s| > 0 && IsDigit(s[|s| - 1])
    ensures r.Some? ==> AllDigits(Unsigned(s)) && DigitsValue(Unsigned(s)) == (if r.value < 0 then -r.value else r.value)
    ensures r.Some? && r.value < 0 ==> s[0] == '-'
    ensures r.Some? && s[0] == '-' ==> r.value <= 0
  {
    if |s| > 0 && s[0] == '-' then
      var d := s[1..];
      if |d| == 0 || !AllDigits(d) then None
      else if DigitsValue(d) <= I32Limit then Some(-(DigitsValue(d) as int))
      else None
    else
      var d := UnsignedDigits(s);
      if |d| == 0 || !AllDigits(d) then None
      else if DigitsValue(d) < I32Limit then Some(DigitsValue(d))
      else None
  }

  function DigitChar(d: nat): char
    requires d < 10
  {
    ('0' as int + d) as char
  }

  /** The decimal spelling of n, as `n.to_string()` writes it. */
  function NatToString(n: nat): string
  {
    if n < 10 then [DigitChar(n)] else NatToString(n / 10) + [DigitChar(n % 10)]
  }

  lemma {:induction false} NatToStringDigits(n: nat)
    ensures |NatToString(n)| > 0 && AllDigits(NatToString(n)) && DigitsValue(NatToString(n)) == n
  {
    if n >= 10 {
      NatToStringDigits(n / 10);
      var s := NatToString(n);
      assert s[..|s| - 1] == NatToString(n / 10);
    }
  }

  /** The decimal spelling holds neither separators nor whitespace. */
  lemma NatToStringPlain(n: nat, sep: char)
    requires !IsDigit(sep)
    ensures sep !in NatToString(n) && |NatToString(n)| > 0 && IsDigit(NatToString(n)[0])
  {
    NatToStringDigits(n);
  }

  /** Every non-empty run of digits below 2^32 is accepted, with or without a '+'. */
  lemma ParseU32Accepts(d: string)
    requires |d| > 0 && AllDigits(d) && DigitsValue(d) < U32Limit
    ensures ParseU32(d) == Some(DigitsValue(d))
    ensures ParseU32("+" + d) == Some(DigitsValue(d))
  {
    assert ("+" + d)[1..] == d;
  }

  /** Every non-empty run of digits in i32 range is accepted after either sign. */
  lemma ParseI32Accepts(d: string)
    requires |d| > 0 && AllDigits(d)
    ensures DigitsValue(d) < I32Limit ==> ParseI32(d) == Some(DigitsValue(d)) && ParseI32("+" + d) == Some(DigitsValue(d))
    ensures DigitsValue(d) <= I32Limit ==> ParseI32("-" + d) == Some(-(DigitsValue(d) as int))
  {
    assert ("+" + d)[1..] == d;
    assert ("-" + d)[1..] == d;
  }

  /** `parse::<u32>` reads back what `to_string` writes. */
  lemma ParseU32RoundTrip(n: nat)
    requires n < U32Limit
    ensures ParseU32(NatToString(n)) == Some(n)
  {
    NatToStringDigits(n);
  }

  /** `parse::<i32>` reads back every non-negative i32 spelled in decimal. */
  lemma ParseI32RoundTrip(n: nat)
    requires n < I32Limit
    ensures ParseI32(NatToString(n)) == Some(n)
  {
    NatToStringDigits(n);
    var s := NatToString(n);
    assert s[0] != '-' && s[0] != '+';
    assert UnsignedDigits(s) == s;
  }

  /** `parse::<i32>` reads back every negative i32 spelled in decimal. */
  lemma ParseI32NegRoundTrip(n: nat)
    requires 0 < n <= I32Limit
    ensures ParseI32("-" + NatToString(n)) == Some(-(n as int))
  {
    NatToStringDigits(n);
    var s := "-" + NatToString(n);
    assert s[0] == '-' && s[1..] == NatToString(n);
  }
}
