/**
 * Integer text and the "<1" sentinel.
 *
 * `pandas.to_numeric(..., errors="coerce")` is modelled on integer text
 * only: an optional sign followed by one or more ASCII digits. The wider
 * syntax pandas also accepts (decimals, exponents, surrounding blanks,
 * "inf" and "infinity") is outside the model; such text reads as "not a
 * number".
 */
module Numeric {
  import opened Wrappers
  import opened Text

  predicate IsSign(c: char) {
    c == '+' || c == '-'
  }

  /** Parses integer text; `None` stands for pandas' coerced missing value. */
  function ParseInteger(s: string): (r: Option<int>)
    ensures r.Some? ==> |s| > 0 && (IsSign(s[0]) || IsDigit(s[0]))
    ensures r.Some? ==> AllDigits(if IsSign(s[0]) then s[1..] else s)
    ensures s == [] ==> r == None
    ensures var d := if |s| > 0 && IsSign(s[0]) then s[1..] else s;
      && (r.Some? <==> |d| > 0 && AllDigits(d))
      && (r.Some? ==> r.value == (if s[0] == '-' then -1 else 1) * Value(d))
  {
    if |s| > 0 && IsSign(s[0]) then
      var body := s[1..];
      if |body| > 0 && AllDigits(body) then
        var v: int := Value(body);
        Some(if s[0] == '-' then -v else v)
      else None
    else if |s| > 0 && AllDigits(s) then Some(Value(s))
    else None
  }

  /** The canonical text of an integer, as the partner of `ParseInteger`. */
  function ShowInt(i: int): (s: string)
    ensures |s| > 0
  {
    if i < 0 then "-" + ShowNat(-i) else ShowNat(i)
  }

  /** Reading back the canonical text of any integer gives that integer. */
  lemma {:induction false} ParseShowInt(i: int)
    ensures ParseInteger(ShowInt(i)) == Some(i)
  {
    if i < 0 {
      var d := ShowNat(-i);
      assert ShowInt(i)[1..] == d;
      assert !IsSign(d[0]);
    } else {
      assert !IsSign(ShowNat(i)[0]);
    }
  }

  /** A sign is optional, leading zeros are allowed, and a sign alone is not a number. */
  lemma SignedTextExamples()
    ensures ParseInteger("+5") == Some(5)
    ensures ParseInteger("007") == Some(7)
    ensures ParseInteger("-0") == Some(0)
    ensures ParseInteger("-12") == Some(-12)
    ensures ParseInteger("+") == None && ParseInteger("-") == None
  {
    assert "+5"[1..] == "5" && "-0"[1..] == "0" && "-12"[1..] == "12";
    assert "007"[..2] == "00" && "007"[..2][..1] == "0";
    assert "12"[..1] == "1";
    assert "+"[1..] == [] && "-"[1..] == [];
  }

  /** Placeholder text seen in reign tables is not a number. */
  lemma NonNumericText()
    ensures ParseInteger("N/A") == None
    ensures ParseInteger("<1") == None
    ensures ParseInteger("—") == None
    ensures ParseInteger("") == None
  {
    assert !IsDigit('N');
    assert !IsDigit('<');
    assert !IsDigit('—');
  }

  /**
   * `str.replace("<1", "0")`: every non-overlapping occurrence of the
   * sentinel, scanning left to right, is replaced by "0".
   */
  function ReplaceSentinel(s: string): (r: string)
    ensures |r| <= |s|
    ensures s != [] ==> r != [] && (r[0] == s[0] || r[0] == '0')
  {
    if |s| < 2 then s
    else if s[0] == '<' && s[1] == '1' then "0" + ReplaceSentinel(s[2..])
    else [s[0]] + ReplaceSentinel(s[1..])
  }

  predicate HasSentinel(s: string) {
    exists i :: 0 <= i < |s| - 1 && s[i] == '<' && s[i + 1] == '1'
  }

  /** After the replacement no sentinel is left. */
  lemma {:induction false} SentinelRemoved(s: string)
    ensures !HasSentinel(ReplaceSentinel(s))
  {
    if |s| < 2 {
    } else if s[0] == '<' && s[1] == '1' {
      SentinelRemoved(s[2..]);
      var r := ReplaceSentinel(s);
      var t := ReplaceSentinel(s[2..]);
      assert r == "0" + t;
      forall i | 0 <= i < |r| - 1
        ensures !(r[i] == '<' && r[i + 1] == '1')
      {
        if i > 0 {
          assert r[i] == t[i - 1] && r[i + 1] == t[i];
        }
      }
    } else {
      SentinelRemoved(s[1..]);
      var r := ReplaceSentinel(s);
      var t := ReplaceSentinel(s[1..]);
      assert r == [s[0]] + t;
      forall i | 0 <= i < |r| - 1
        ensures !(r[i] == '<' && r[i + 1] == '1')
      {
        if i > 0 {
          assert r[i] == t[i - 1] && r[i + 1] == t[i];
        } else if s[0] == '<' {
          // s[1] is not '1', so t starts with s[1] or with the '0' of a replacement
          assert t[0] == s[1] || t[0] == '0';
        }
      }
    }
  }

  /** Text without the sentinel is left unchanged. */
  lemma {:induction false} NoSentinelUnchanged(s: string)
    requires !HasSentinel(s)
    ensures ReplaceSentinel(s) == s
  {
    if |s| >= 2 {
      assert !(s[0] == '<' && s[1] == '1');
      assert !HasSentinel(s[1..]) by {
        forall i | 0 <= i < |s[1..]| - 1
          ensures !(s[1..][i] == '<' && s[1..][i + 1] == '1')
        {
          assert s[1..][i] == s[i + 1] && s[1..][i + 1] == s[i + 2];
        }
      }
      NoSentinelUnchanged(s[1..]);
    }
  }

  /**
   * The first sentinel is replaced by "0", the text before it is kept and
   * the replacement goes on after it; with `NoSentinelUnchanged` this fixes
   * the result on every text.
   */
  lemma {:induction false} SentinelReplacedAt(a: string, b: string)
    requires !HasSentinel(a)
    ensures ReplaceSentinel(a + "<1" + b) == a + "0" + ReplaceSentinel(b)
  {
    var s := a + "<1" + b;
    if a == [] {
      assert s[2..] == b;
    } else {
      assert s[0] == a[0];
      assert s[1] == if |a| >= 2 then a[1] else '<';
      assert s[1..] == a[1..] + "<1" + b;
      SentinelFreeTail(a);
      SentinelReplacedAt(a[1..], b);
      calc {
        ReplaceSentinel(s);
        [s[0]] + ReplaceSentinel(s[1..]);
        [a[0]] + (a[1..] + "0" + ReplaceSentinel(b));
        a + "0" + ReplaceSentinel(b);
      }
    }
  }

  lemma SentinelFreeTail(a: string)
    requires a != [] && !HasSentinel(a)
    ensures !HasSentinel(a[1..])
  {
    forall i | 0 <= i < |a[1..]| - 1
      ensures !(a[1..][i] == '<' && a[1..][i + 1] == '1')
    {
      assert a[1..][i] == a[i + 1] && a[1..][i + 1] == a[i + 2];
    }
  }

  /** "<12" becomes "02", which reads as 2, and "a<1<1" becomes "a00": each sentinel is replaced in place. */
  lemma SentinelExamples()
    ensures ReplaceSentinel("<12") == "02"
    ensures ReplaceSentinel("a<1<1") == "a00"
    ensures ParseInteger(ReplaceSentinel("<12")) == Some(2)
  {
    NoSentinelUnchanged("2");
    SentinelReplacedAt([], "2");
    assert "<12" == [] + "<1" + "2";
    SentinelReplacedAt([], []);
    assert "<1<1" == [] + "<1" + "<1";
    SentinelReplacedAt("a", "<1");
    assert "a<1<1" == "a" + "<1" + "<1";
    assert "02"[..1] == "0";
    assert Value("02") == Value("0") * 10 + DigitValue('2');
    assert Value("0") == Value([]) * 10 + DigitValue('0');
  }

  /** The sentinel on its own becomes the text of zero, a number. */
  lemma SentinelReadsAsZero()
    ensures ReplaceSentinel("<1") == "0"
    ensures ParseInteger(ReplaceSentinel("<1")) == Some(0)
  {
    assert ReplaceSentinel("<1") == "0" + ReplaceSentinel([]);
    assert Value("0") == Value([]) * 10 + DigitValue('0');
  }
}
