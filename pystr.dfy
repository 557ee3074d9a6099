/**
 * The pieces of Python's string handling the tier logic relies on:
 * `str.split` with a one-character separator, `sep.join`, the built-in
 * `int(s)` in base 10, and the decimal rendering used by `'%d' % n`.
 */
module PyStr {
  import opened Wrappers

  /** Number of occurrences of `c` in `s`. */
  function Count(s: string, c: char): nat
  {
    if s == [] then 0 else (if s[0] == c then 1 else 0) + Count(s[1..], c)
  }

  /**
   * `s.split(sep)`: the maximal runs between separators, including empty
   * ones at either end.  There is always at least one piece.
   */
  function Split(s: string, sep: char): (pieces: seq<string>)
    ensures |pieces| >= 1
  {
    if s == [] then [""]
    else
      var rest := Split(s[1..], sep);
      if s[0] == sep then [""] + rest
      else [[s[0]] + rest[0]] + rest[1..]
  }

  /** `sep.join(pieces)`. */
  function Join(pieces: seq<string>, sep: char): string
  {
    if pieces == [] then ""
    else if |pieces| == 1 then pieces[0]
    else pieces[0] + [sep] + Join(pieces[1..], sep)
  }

  /** No piece of a split contains the separator. */
  lemma {:induction false} SplitPiecesAreSeparatorFree(s: string, sep: char)
    ensures forall k :: 0 <= k < |Split(s, sep)| ==> sep !in Split(s, sep)[k]
  {
    if s != [] {
      var rest := Split(s[1..], sep);
      SplitPiecesAreSeparatorFree(s[1..], sep);
      if s[0] != sep {
        var pieces := Split(s, sep);
        assert pieces[0] == [s[0]] + rest[0];
        forall k | 0 <= k < |pieces| ensures sep !in pieces[k] {
          if k > 0 {
            assert pieces[k] == rest[k];
          }
        }
      }
    }
  }

  /** Splitting yields one more piece than there are separators. */
  lemma {:induction false} SplitCount(s: string, sep: char)
    ensures |Split(s, sep)| == Count(s, sep) + 1
  {
    if s != [] {
      SplitCount(s[1..], sep);
    }
  }

  /** Joining the pieces of a split gives back the original string. */
  lemma {:induction false} JoinSplit(s: string, sep: char)
    ensures Join(Split(s, sep), sep) == s
  {
    if s != [] {
      var rest := Split(s[1..], sep);
      JoinSplit(s[1..], sep);
      if s[0] == sep {
        var pieces := [""] + rest;
        assert pieces[1..] == rest;
        assert Join(pieces, sep) == "" + [sep] + Join(rest, sep);
        assert [sep] + s[1..] == s;
      } else {
        var pieces := [[s[0]] + rest[0]] + rest[1..];
        if |rest| == 1 {
          assert Join(pieces, sep) == [s[0]] + rest[0];
          assert [s[0]] + s[1..] == s;
        } else {
          assert pieces[1..] == rest[1..];
          assert Join(rest, sep) == rest[0] + [sep] + Join(rest[1..], sep);
          assert Join(pieces, sep) == [s[0]] + rest[0] + [sep] + Join(rest[1..], sep);
          assert [s[0]] + s[1..] == s;
        }
      }
    }
  }

  /** A leading character other than the separator joins the first piece. */
  lemma SplitCons(c: char, s: string, sep: char)
    requires c != sep
    ensures Split([c] + s, sep) == [[c] + Split(s, sep)[0]] + Split(s, sep)[1..]
  {
    assert ([c] + s)[1..] == s;
  }

  /** Splitting a separator-free prefix followed by a tail. */
  lemma {:induction false} SplitPrefix(p: string, tail: string, sep: char)
    requires sep !in p
    ensures Split(p + tail, sep) == [p + Split(tail, sep)[0]] + Split(tail, sep)[1..]
  {
    if p != [] {
      var q, rest := p[1..], Split(tail, sep);
      var inner := Split(q + tail, sep);
      SplitPrefix(q, tail, sep);
      assert inner[0] == q + rest[0] && inner[1..] == rest[1..];
      assert p + tail == [p[0]] + (q + tail);
      SplitCons(p[0], q + tail, sep);
      assert [p[0]] + (q + rest[0]) == p + rest[0];
    } else {
      var rest := Split(tail, sep);
      assert p + tail == tail;
      assert p + rest[0] == rest[0];
      assert [rest[0]] + rest[1..] == rest;
    }
  }

  /** Splitting a join of separator-free pieces gives back the pieces. */
  lemma {:induction false} SplitJoin(pieces: seq<string>, sep: char)
    requires |pieces| >= 1
    requires forall k :: 0 <= k < |pieces| ==> sep !in pieces[k]
    ensures Split(Join(pieces, sep), sep) == pieces
  {
    if |pieces| == 1 {
      SplitPrefix(pieces[0], "", sep);
      assert pieces[0] + "" == pieces[0];
    } else {
      var t := Join(pieces[1..], sep);
      SplitJoin(pieces[1..], sep);
      SplitPrefix(pieces[0], [sep] + t, sep);
      assert pieces[0] + [sep] + t == pieces[0] + ([sep] + t);
      assert ([sep] + t)[1..] == t;
      assert Split([sep] + t, sep) == [""] + pieces[1..];
      assert pieces[0] + "" == pieces[0];
      assert [pieces[0]] + pieces[1..] == pieces;
    }
  }

  /** ASCII decimal digit. */
  predicate IsDigit(c: char)
  {
    '0' <= c <= '9'
  }

  /** The value of a decimal digit character. */
  function DigitValue(c: char): int
  {
    c as int - '0' as int
  }

  /** The character of a decimal digit. */
  function DigitChar(d: nat): (c: char)
    requires d < 10
    ensures IsDigit(c) && DigitValue(c) == d
  {
    ('0' as int + d) as char
  }

  /**
   * The whitespace `int` skips around an ASCII number: tab to carriage
   * return, and space.  The separators 0x1C to 0x1F, which `str.isspace`
   * accepts, are not skipped.
   */
  predicate IsSpace(c: char)
  {
    9 <= c as int <= 13 || c == ' '
  }

  /** Drops leading whitespace; the result is a suffix of `s`. */
  function LStrip(s: string): (t: string)
    ensures |t| <= |s| && t == s[|s| - |t|..]
    ensures t == [] || !IsSpace(t[0])
  {
    if s != [] && IsSpace(s[0]) then LStrip(s[1..]) else s
  }

  /** `LStrip` drops whitespace only: every character before the result is whitespace. */
  lemma {:induction false} LStripDropsOnlySpace(s: string)
    ensures forall k :: 0 <= k < |s| - |LStrip(s)| ==> IsSpace(s[k])
  {
    if s != [] && IsSpace(s[0]) {
      LStripDropsOnlySpace(s[1..]);
      assert forall k :: 1 <= k < |s| ==> s[k] == s[1..][k - 1];
    }
  }

  /** Drops trailing whitespace; the result is a prefix of `s`. */
  function RStrip(s: string): (t: string)
    ensures |t| <= |s| && t == s[..|t|]
    ensures t == [] || !IsSpace(t[|t| - 1])
  {
    if s != [] && IsSpace(s[|s| - 1]) then RStrip(s[..|s| - 1]) else s
  }

  /** `RStrip` drops whitespace only: every character after the result is whitespace. */
  lemma {:induction false} RStripDropsOnlySpace(s: string)
    ensures forall k :: |RStrip(s)| <= k < |s| ==> IsSpace(s[k])
  {
    if s != [] && IsSpace(s[|s| - 1]) {
      RStripDropsOnlySpace(s[..|s| - 1]);
    }
  }

  /**
   * A base-10 digit string as `int` accepts it: digits, with single
   * underscores allowed between two digits (`1_000`).
   */
  predicate IsDigitGroup(s: string)
  {
    && |s| > 0
    && IsDigit(s[0])
    && IsDigit(s[|s| - 1])
    && forall k :: 0 <= k < |s| ==>
         IsDigit(s[k]) || (s[k] == '_' && 0 < k < |s| - 1 && IsDigit(s[k - 1]) && IsDigit(s[k + 1]))
  }

  /** The number a digit group denotes; underscores are ignored. */
  function DigitsValue(s: string): nat
  {
    if s == [] then 0
    else
      var init := DigitsValue(s[..|s| - 1]);
      var c := s[|s| - 1];
      if IsDigit(c) then 10 * init + DigitValue(c) else init
  }

  /** An unsigned digit group and its value, or `None`. */
  function ParseUnsigned(t: string): Option<nat>
  {
    if IsDigitGroup(t) then Some(DigitsValue(t)) else None
  }

  /** An optionally signed digit group and its value, or `None`. */
  function ParseSigned(t: string): Option<int>
  {
    if |t| > 0 && (t[0] == '+' || t[0] == '-') then
      match ParseUnsigned(t[1..])
      case None => None
      case Some(m) => var v: int := m; Some(if t[0] == '-' then -v else v)
    else
      match ParseUnsigned(t)
      case None => None
      case Some(m) => var v: int := m; Some(v)
  }

  /** `s` holds a decimal digit somewhere. */
  predicate HasDigit(s: string)
  {
    s != [] && (IsDigit(s[0]) || HasDigit(s[1..]))
  }

  /** A string without a digit in it has no digit at any index. */
  lemma {:induction false} NoDigitAnywhere(s: string)
    requires !HasDigit(s)
    ensures forall k :: 0 <= k < |s| ==> !IsDigit(s[k])
  {
    if s != [] {
      NoDigitAnywhere(s[1..]);
      assert forall k :: 1 <= k < |s| ==> s[k] == s[1..][k - 1];
    }
  }

  /**
   * Python's `int(s)`: surrounding whitespace is ignored, an optional sign
   * is followed by a digit group; anything else raises (`None` here).
   */
  function ParseInt(s: string): (r: Option<int>)
    ensures r.Some? ==> HasDigit(s)
  {
    var t := RStrip(LStrip(s));
    assert ParseSigned(t).Some? ==> HasDigit(s) by {
      if !HasDigit(s) {
        NoDigitAnywhere(s);
        StrippedNeedsDigit(s);
      }
    }
    ParseSigned(t)
  }

  /** The decimal digits of `n`, most significant first, with no leading zero. */
  function NatToString(n: nat): (s: string)
    ensures |s| >= 1
    ensures forall k :: 0 <= k < |s| ==> IsDigit(s[k])
    ensures n > 0 ==> s[0] != '0'
  {
    if n < 10 then [DigitChar(n)] else NatToString(n / 10) + [DigitChar(n % 10)]
  }

  /** `'%d' % i`: an optional minus sign followed by the decimal digits. */
  function IntToString(i: int): (s: string)
    ensures |s| >= 1 && IsDigit(s[|s| - 1])
    ensures forall k :: 0 <= k < |s| ==> IsDigit(s[k]) || (k == 0 && s[k] == '-')
    ensures (s[0] == '-') <==> i < 0
  {
    if i < 0 then "-" + NatToString(-i) else NatToString(i)
  }

  /** The digits of `n` denote `n`. */
  lemma {:induction false} DigitsValueOfNatToString(n: nat)
    ensures DigitsValue(NatToString(n)) == n
  {
    if n >= 10 {
      var s := NatToString(n);
      DigitsValueOfNatToString(n / 10);
      assert s[..|s| - 1] == NatToString(n / 10);
    }
  }

  /** A string without whitespace at either end is its own stripped form. */
  lemma StripNoSpace(s: string)
    requires s != [] && !IsSpace(s[0]) && !IsSpace(s[|s| - 1])
    ensures RStrip(LStrip(s)) == s
  {
  }

  /** A non-empty run of digits is a digit group. */
  lemma DigitsAreDigitGroup(s: string)
    requires |s| >= 1 && forall k :: 0 <= k < |s| ==> IsDigit(s[k])
    ensures IsDigitGroup(s)
  {
  }

  /** The digits of `n` parse back to `n`. */
  lemma ParseUnsignedOfNatToString(n: nat)
    ensures ParseUnsigned(NatToString(n)) == Some(n)
  {
    DigitsAreDigitGroup(NatToString(n));
    DigitsValueOfNatToString(n);
  }

  /** A minus sign followed by the digits of `n` parses to `-n`. */
  lemma ParseSignedOfNegated(n: nat, s: string)
    requires s == "-" + NatToString(n)
    ensures ParseSigned(s) == Some(-(n as int))
  {
    assert s[1..] == NatToString(n);
    ParseUnsignedOfNatToString(n);
  }

  /** The digits of `n`, unsigned, parse to `n`. */
  lemma ParseSignedOfNat(n: nat)
    ensures ParseSigned(NatToString(n)) == Some(n)
  {
    ParseUnsignedOfNatToString(n);
  }

  /** The rendering of an integer, once stripped, parses back to it. */
  lemma ParseSignedOfIntToString(i: int)
    ensures ParseSigned(IntToString(i)) == Some(i)
  {
    if i < 0 {
      ParseSignedOfNegated(-i, IntToString(i));
    } else {
      ParseSignedOfNat(i);
    }
  }

  /** `int('%d' % i) == i`. */
  lemma ParseIntOfIntToString(i: int)
    ensures ParseInt(IntToString(i)) == Some(i)
  {
    StripNoSpace(IntToString(i));
    ParseSignedOfIntToString(i);
  }

  /** `int` skips whitespace on both sides of a number: `int(' \t-12 ') == -12`. */
  lemma ParseIntPadded(pre: string, i: int, post: string)
    requires forall k :: 0 <= k < |pre| ==> IsSpace(pre[k])
    requires forall k :: 0 <= k < |post| ==> IsSpace(post[k])
    ensures ParseInt(pre + IntToString(i) + post) == Some(i)
  {
    var s := IntToString(i);
    assert pre + s + post == pre + (s + post);
    LStripPadded(pre, s + post);
    RStripPadded(s, post);
    ParseSignedOfIntToString(i);
  }

  /** Leading whitespace before a text that does not start with whitespace is stripped exactly. */
  lemma {:induction false} LStripPadded(pre: string, x: string)
    requires forall k :: 0 <= k < |pre| ==> IsSpace(pre[k])
    requires x != [] && !IsSpace(x[0])
    ensures LStrip(pre + x) == x
  {
    if pre != [] {
      assert (pre + x)[1..] == pre[1..] + x;
      LStripPadded(pre[1..], x);
    }
  }

  /** Trailing whitespace after a text that does not end with whitespace is stripped exactly. */
  lemma {:induction false} RStripPadded(x: string, post: string)
    requires forall k :: 0 <= k < |post| ==> IsSpace(post[k])
    requires x != [] && !IsSpace(x[|x| - 1])
    ensures RStrip(x + post) == x
  {
    if post != [] {
      var xp := x + post;
      assert xp[..|xp| - 1] == x + post[..|post| - 1];
      RStripPadded(x, post[..|post| - 1]);
    } else {
      assert x + post == x;
    }
  }

  /** A string with no decimal digit in it, the empty string included, is no number once stripped. */
  lemma StrippedNeedsDigit(s: string)
    requires forall k :: 0 <= k < |s| ==> !IsDigit(s[k])
    ensures ParseSigned(RStrip(LStrip(s))) == None
  {
    var l := LStrip(s);
    NoDigitSlice(s, |s| - |l|, |s|);
    var t := RStrip(l);
    NoDigitSlice(l, 0, |t|);
    ParseSignedNeedsDigit(t);
  }

  /** A slice of a string without digits has none either. */
  lemma NoDigitSlice(s: string, i: int, j: int)
    requires 0 <= i <= j <= |s|
    requires forall k :: 0 <= k < |s| ==> !IsDigit(s[k])
    ensures forall k :: 0 <= k < j - i ==> !IsDigit(s[i..j][k])
  {
    assert forall k :: 0 <= k < j - i ==> s[i..j][k] == s[i + k];
  }

  /** A string without digits is not an optionally signed digit group. */
  lemma ParseSignedNeedsDigit(t: string)
    requires forall k :: 0 <= k < |t| ==> !IsDigit(t[k])
    ensures ParseSigned(t) == None
  {
    assert ParseUnsigned(t) == None;
    if |t| > 1 {
      assert ParseUnsigned(t[1..]) == None by {
        assert !IsDigit(t[1..][0]);
      }
    }
  }
}
