/**
 * The digit layout of `phoneFormat` in `src/routes/functions.ts`: every
 * non-digit is dropped (`/\D/g`), and the digits are laid out as a North
 * American number, with a `+1` prefix when they start with `1`.
 */
module Phone {
  import opened Text

  /** `value.replace(/\D/g, '')`. */
  function Digits(s: string): (d: string)
    ensures forall k :: 0 <= k < |d| ==> IsDigit(d[k])
    ensures |d| <= |s|
  {
    if s == [] then [] else (if IsDigit(s[0]) then [s[0]] else []) + Digits(s[1..])
  }

  /**
   * The layout of the digits.  After a leading `1` the source also tests for
   * zero digits, which cannot happen once a first digit exists; that branch
   * has no counterpart here.  Twelve digits or more (with a leading `1`), and
   * three or fewer or eleven or more (without), are left as they are.
   */
  function PhoneLayout(d: string): string
  {
    if |d| >= 1 && d[0] == '1' then
      if |d| < 2 then "+" + d + " "
      else if |d| < 4 then "+" + d[..1] + " (" + d[1..]
      else if |d| < 8 then "+" + d[..1] + " (" + d[1..4] + ") " + d[4..]
      else if |d| < 12 then "+" + d[..1] + " (" + d[1..4] + ") " + d[4..7] + "-" + d[7..]
      else d
    else if 7 < |d| < 11 then "(" + d[..3] + ") " + d[3..6] + "-" + d[6..]
    else if 3 < |d| < 8 then d[..3] + "-" + d[3..]
    else d
  }

  /**
   * The value `phoneFormat` computes from the field's old value. The field is
   * reassigned only when this differs from the cached previous value.
   */
  function PhoneFormat(value: string): string
  {
    PhoneLayout(Digits(value))
  }

  /** The characters the layout adds. */
  predicate IsPunctuation(c: char)
  {
    c == '+' || c == '(' || c == ')' || c == ' ' || c == '-'
  }

  predicate AllDigits(s: string)
  {
    forall k :: 0 <= k < |s| ==> IsDigit(s[k])
  }

  predicate AllPunctuation(s: string)
  {
    forall k :: 0 <= k < |s| ==> IsPunctuation(s[k])
  }

  lemma {:induction false} DigitsConcat(a: string, b: string)
    ensures Digits(a + b) == Digits(a) + Digits(b)
  {
    if a == [] {
      assert a + b == b;
    } else {
      assert (a + b)[0] == a[0] && (a + b)[1..] == a[1..] + b;
      DigitsConcat(a[1..], b);
    }
  }

  lemma {:induction false} DigitsOfDigits(s: string)
    requires AllDigits(s)
    ensures Digits(s) == s
  {
    if s != [] {
      DigitsOfDigits(s[1..]);
    }
  }

  lemma {:induction false} DigitsOfPunctuation(s: string)
    requires AllPunctuation(s)
    ensures Digits(s) == []
  {
    if s != [] {
      DigitsOfPunctuation(s[1..]);
    }
  }

  lemma SliceDigits(d: string, lo: nat, hi: nat)
    requires lo <= hi <= |d| && AllDigits(d)
    ensures AllDigits(d[lo..hi])
  {
    forall k | 0 <= k < hi - lo ensures IsDigit(d[lo..hi][k]) {
      assert d[lo..hi][k] == d[lo + k];
    }
  }

  /** Punctuation followed by digits adds just the digits. */
  lemma {:induction false} Glue(a: string, p: string, x: string)
    requires AllPunctuation(p) && AllDigits(x)
    ensures Digits(a + p + x) == Digits(a) + x
  {
    DigitsConcat(a + p, x);
    DigitsConcat(a, p);
    DigitsOfPunctuation(p);
    DigitsOfDigits(x);
  }

  /** The first piece of a layout: punctuation, then digits. */
  lemma Lead(p: string, x: string)
    requires AllPunctuation(p) && AllDigits(x)
    ensures Digits(p + x) == x
  {
    Glue([], p, x);
    assert [] + p == p;
  }

  /** A lone `1` becomes `+1 `. */
  lemma OneDigit(d: string)
    requires AllDigits(d)
    requires |d| == 1 && d[0] == '1'
    ensures Digits(PhoneLayout(d)) == d
  {
    Lead("+", d);
    DigitsConcat("+" + d, " ");
    DigitsOfPunctuation(" ");
  }

  /** Two or three digits after a `1`: `+1 (dd`. */
  lemma ShortTrunk(d: string)
    requires AllDigits(d)
    requires 2 <= |d| < 4 && d[0] == '1'
    ensures Digits(PhoneLayout(d)) == d
  {
    var a, b := d[..1], d[1..];
    SliceDigits(d, 0, 1);
    SliceDigits(d, 1, |d|);
    assert d[0..1] == a && d[1..|d|] == b;
    Lead("+", a);
    Glue("+" + a, " (", b);
    assert a + b == d;
  }

  /** Four to seven digits after a `1`: `+1 (ddd) ddd`. */
  lemma ExchangeOnly(d: string)
    requires AllDigits(d)
    requires 4 <= |d| < 8 && d[0] == '1'
    ensures Digits(PhoneLayout(d)) == d
  {
    var a, b, c := d[..1], d[1..4], d[4..];
    SliceDigits(d, 0, 1);
    SliceDigits(d, 1, 4);
    SliceDigits(d, 4, |d|);
    assert d[0..1] == a && d[4..|d|] == c;
    Lead("+", a);
    Glue("+" + a, " (", b);
    Glue("+" + a + " (" + b, ") ", c);
    assert a + b + c == d;
  }

  /** Eight to eleven digits after a `1`: `+1 (ddd) ddd-dddd`. */
  lemma FullWithCode(d: string)
    requires AllDigits(d)
    requires 8 <= |d| < 12 && d[0] == '1'
    ensures Digits(PhoneLayout(d)) == d
  {
    var a, b, c, e := d[..1], d[1..4], d[4..7], d[7..];
    SliceDigits(d, 0, 1);
    SliceDigits(d, 1, 4);
    SliceDigits(d, 4, 7);
    SliceDigits(d, 7, |d|);
    assert d[0..1] == a && d[7..|d|] == e;
    Lead("+", a);
    Glue("+" + a, " (", b);
    Glue("+" + a + " (" + b, ") ", c);
    Glue("+" + a + " (" + b + ") " + c, "-", e);
    assert a + b + c + e == d;
  }

  /** Eight to ten digits without a `1`: `(ddd) ddd-dddd`. */
  lemma FullLocal(d: string)
    requires AllDigits(d)
    requires 7 < |d| < 11 && d[0] != '1'
    ensures Digits(PhoneLayout(d)) == d
  {
    var a, b, c := d[..3], d[3..6], d[6..];
    SliceDigits(d, 0, 3);
    SliceDigits(d, 3, 6);
    SliceDigits(d, 6, |d|);
    assert d[0..3] == a && d[6..|d|] == c;
    Lead("(", a);
    Glue("(" + a, ") ", b);
    Glue("(" + a + ") " + b, "-", c);
    assert a + b + c == d;
  }

  /** Four to seven digits without a `1`: `ddd-dddd`. */
  lemma ShortLocal(d: string)
    requires AllDigits(d)
    requires 3 < |d| < 8 && d[0] != '1'
    ensures Digits(PhoneLayout(d)) == d
  {
    var a, b := d[..3], d[3..];
    SliceDigits(d, 0, 3);
    SliceDigits(d, 3, |d|);
    assert d[0..3] == a && d[3..|d|] == b;
    SliceDigits(d, 0, 3);
    DigitsOfDigits(a);
    Glue(a, "-", b);
    assert a + b == d;
  }

  /** The layout never loses, adds or reorders a digit: dropping its punctuation gives the digits back. */
  lemma LayoutKeepsDigits(d: string)
    requires AllDigits(d)
    ensures Digits(PhoneLayout(d)) == d
  {
    if |d| >= 1 && d[0] == '1' {
      if |d| < 2 { OneDigit(d); }
      else if |d| < 4 { ShortTrunk(d); }
      else if |d| < 8 { ExchangeOnly(d); }
      else if |d| < 12 { FullWithCode(d); }
      else { DigitsOfDigits(d); }
    } else if 7 < |d| < 11 {
      FullLocal(d);
    } else if 3 < |d| < 8 {
      ShortLocal(d);
    } else {
      DigitsOfDigits(d);
    }
  }

  /** Formatting keeps exactly the digits that were typed, in order. */
  lemma FormatKeepsDigits(value: string)
    ensures Digits(PhoneFormat(value)) == Digits(value)
  {
    LayoutKeepsDigits(Digits(value));
  }

  /** Formatting an already formatted value changes nothing, so re-running it on every keystroke is stable. */
  lemma FormatIdempotent(value: string)
    ensures PhoneFormat(PhoneFormat(value)) == PhoneFormat(value)
  {
    FormatKeepsDigits(value);
  }

  /** A character the layout may show: a digit or one of `+`, `(`, `)`, space and `-`. */
  predicate Shown(s: string)
  {
    forall k :: 0 <= k < |s| ==> IsDigit(s[k]) || IsPunctuation(s[k])
  }

  lemma ShownConcat(a: string, b: string)
    requires Shown(a) && Shown(b)
    ensures Shown(a + b)
  {
    forall k | 0 <= k < |a + b| ensures IsDigit((a + b)[k]) || IsPunctuation((a + b)[k]) {
      if k < |a| { assert (a + b)[k] == a[k]; } else { assert (a + b)[k] == b[k - |a|]; }
    }
  }

  lemma ShownSlice(d: string, lo: nat, hi: nat)
    requires lo <= hi <= |d| && AllDigits(d)
    ensures Shown(d[lo..hi])
  {
    SliceDigits(d, lo, hi);
  }

  /** Each branch of the layout glues digit slices of its input to punctuation. */
  lemma LayoutShown(d: string)
    requires AllDigits(d)
    ensures Shown(PhoneLayout(d))
  {
    var n := |d|;
    if n >= 1 && d[0] == '1' {
      if n < 2 {
        ShownSlice(d, 0, n);
        assert d[0..n] == d;
        ShownConcat("+", d);
        ShownConcat("+" + d, " ");
      } else if n < 4 {
        ShownSlice(d, 0, 1);
        ShownSlice(d, 1, n);
        assert d[0..1] == d[..1] && d[1..n] == d[1..];
        ShownConcat("+", d[..1]);
        ShownConcat("+" + d[..1], " (");
        ShownConcat("+" + d[..1] + " (", d[1..]);
      } else if n < 8 {
        LongTrunkShown(d);
      } else if n < 12 {
        FullTrunkShown(d);
      } else {
        ShownSlice(d, 0, n);
        assert d[0..n] == d;
      }
    } else if 7 < n < 11 {
      ShownSlice(d, 0, 3);
      ShownSlice(d, 3, 6);
      ShownSlice(d, 6, n);
      assert d[0..3] == d[..3] && d[6..n] == d[6..];
      ShownConcat("(", d[..3]);
      ShownConcat("(" + d[..3], ") ");
      ShownConcat("(" + d[..3] + ") ", d[3..6]);
      ShownConcat("(" + d[..3] + ") " + d[3..6], "-");
      ShownConcat("(" + d[..3] + ") " + d[3..6] + "-", d[6..]);
    } else if 3 < n < 8 {
      ShownSlice(d, 0, 3);
      ShownSlice(d, 3, n);
      assert d[0..3] == d[..3] && d[3..n] == d[3..];
      ShownConcat(d[..3], "-");
      ShownConcat(d[..3] + "-", d[3..]);
    } else {
      ShownSlice(d, 0, n);
      assert d[0..n] == d;
    }
  }

  lemma LongTrunkShown(d: string)
    requires AllDigits(d) && 4 <= |d| < 8 && d[0] == '1'
    ensures Shown(PhoneLayout(d))
  {
    ShownSlice(d, 0, 1);
    ShownSlice(d, 1, 4);
    ShownSlice(d, 4, |d|);
    assert d[0..1] == d[..1] && d[4..|d|] == d[4..];
    ShownConcat("+", d[..1]);
    ShownConcat("+" + d[..1], " (");
    ShownConcat("+" + d[..1] + " (", d[1..4]);
    ShownConcat("+" + d[..1] + " (" + d[1..4], ") ");
    ShownConcat("+" + d[..1] + " (" + d[1..4] + ") ", d[4..]);
  }

  lemma FullTrunkShown(d: string)
    requires AllDigits(d) && 8 <= |d| < 12 && d[0] == '1'
    ensures Shown(PhoneLayout(d))
  {
    ShownSlice(d, 0, 1);
    ShownSlice(d, 1, 4);
    ShownSlice(d, 4, 7);
    ShownSlice(d, 7, |d|);
    assert d[0..1] == d[..1] && d[7..|d|] == d[7..];
    ShownConcat("+", d[..1]);
    ShownConcat("+" + d[..1], " (");
    ShownConcat("+" + d[..1] + " (", d[1..4]);
    ShownConcat("+" + d[..1] + " (" + d[1..4], ") ");
    ShownConcat("+" + d[..1] + " (" + d[1..4] + ") ", d[4..7]);
    ShownConcat("+" + d[..1] + " (" + d[1..4] + ") " + d[4..7], "-");
    ShownConcat("+" + d[..1] + " (" + d[1..4] + ") " + d[4..7] + "-", d[7..]);
  }

  /** Every character of the result is a digit or one of `+`, `(`, `)`, space and `-`. */
  lemma FormatAlphabet(value: string)
    ensures forall k :: 0 <= k < |PhoneFormat(value)| ==> IsDigit(PhoneFormat(value)[k]) || IsPunctuation(PhoneFormat(value)[k])
  {
    LayoutShown(Digits(value));
  }

  /** Ten digits become `(ddd) ddd-dddd`. */
  lemma TenDigitExample(v: string)
    requires v == "5551234567"
    ensures PhoneFormat(v) == "(555) 123-4567"
  {
    TenDigitLayout(v);
    TenDigitPieces(v);
    TenDigitJoined();
  }

  lemma TenDigitLayout(v: string)
    requires v == "5551234567"
    ensures PhoneFormat(v) == "(" + v[..3] + ") " + v[3..6] + "-" + v[6..]
  {
    assert AllDigits(v);
    DigitsOfDigits(v);
  }

  lemma TenDigitPieces(v: string)
    requires v == "5551234567"
    ensures v[..3] == "555" && v[3..6] == "123" && v[6..] == "4567"
  {
    assert v[..3] == [v[0], v[1], v[2]];
    assert v[3..6] == [v[3], v[4], v[5]];
    assert v[6..] == [v[6], v[7], v[8], v[9]];
  }

  lemma TenDigitJoined()
    ensures "(" + "555" + ") " + "123" + "-" + "4567" == "(555) 123-4567"
  {
  }

  /** Eleven digits after a country code `1` become `+1 (ddd) ddd-dddd`. */
  lemma CountryCodeExample(v: string)
    requires v == "15551234567"
    ensures PhoneFormat(v) == "+1 (555) 123-4567"
  {
    CountryCodeLayout(v);
    CountryCodePieces(v);
    CountryCodeJoined();
  }

  lemma CountryCodeLayout(v: string)
    requires v == "15551234567"
    ensures PhoneFormat(v) == "+" + v[..1] + " (" + v[1..4] + ") " + v[4..7] + "-" + v[7..]
  {
    assert AllDigits(v);
    DigitsOfDigits(v);
  }

  lemma CountryCodePieces(v: string)
    requires v == "15551234567"
    ensures v[..1] == "1" && v[1..4] == "555" && v[4..7] == "123" && v[7..] == "4567"
  {
    assert v[..1] == [v[0]];
    assert v[1..4] == [v[1], v[2], v[3]];
    assert v[4..7] == [v[4], v[5], v[6]];
    assert v[7..] == [v[7], v[8], v[9], v[10]];
  }

  lemma CountryCodeJoined()
    ensures "+" + "1" + " (" + "555" + ") " + "123" + "-" + "4567" == "+1 (555) 123-4567"
  {
  }

  /** Seven digits become `ddd-dddd`. */
  lemma SevenDigitExample(v: string)
    requires v == "5551234"
    ensures PhoneFormat(v) == "555-1234"
  {
    SevenDigitLayout(v);
    assert v[..3] == [v[0], v[1], v[2]] == "555";
    assert v[3..] == [v[3], v[4], v[5], v[6]] == "1234";
    SevenDigitJoined();
  }

  lemma SevenDigitLayout(v: string)
    requires v == "5551234"
    ensures PhoneFormat(v) == v[..3] + "-" + v[3..]
  {
    assert AllDigits(v);
    DigitsOfDigits(v);
  }

  lemma SevenDigitJoined()
    ensures "555" + "-" + "1234" == "555-1234"
  {
  }

  /**
   * The reformatting in `phoneFormat`: `input` is reassigned from the digits
   * to their layout, branch by branch.
   */
  method FormatDigits(value: string) returns (input: string)
    ensures input == PhoneFormat(value)
    ensures Digits(input) == Digits(value)
  {
    input := Digits(value);
    var size := |input|;
    if |input| >= 1 && input[..1] == "1" {
      if size == 0 { input := ""; }
      else if size < 2 { input := "+" + input + " "; }
      else if size < 4 { input := "+" + input[..1] + " (" + input[1..]; }
      else if size < 8 { input := "+" + input[..1] + " (" + input[1..4] + ") " + input[4..]; }
      else if size < 12 { input := "+" + input[..1] + " (" + input[1..4] + ") " + input[4..7] + "-" + input[7..size]; }
    } else {
      if 7 < size < 11 { input := "(" + input[..3] + ") " + input[3..6] + "-" + input[6..]; }
      else if 3 < size < 8 { input := input[..3] + "-" + input[3..]; }
    }
    FormatKeepsDigits(value);
  }

  /** The digits of a number typed as `(ddd ddd-dddd`. */
  lemma {:induction false} OpenBracketDigits(x: string, y: string, z: string)
    requires AllDigits(x) && AllDigits(y) && AllDigits(z)
    ensures Digits("(" + x + " " + y + "-" + z) == x + y + z
  {
    Lead("(", x);
    Glue("(" + x, " ", y);
    Glue("(" + x + " " + y, "-", z);
  }

  /**
   * Deleting the closing bracket of a formatted ten-digit number computes the same
   * layout again. This is about the computed value only: when it equals the cached
   * previous value, `phoneFormat` leaves the field as the user left it.
   */
  lemma {:induction false} BracketDeletionKept(x: string, y: string, z: string)
    requires |x| == 3 && |y| == 3 && |z| == 4 && x[0] != '1'
    requires forall k :: 0 <= k < |x| ==> IsDigit(x[k])
    requires forall k :: 0 <= k < |y| ==> IsDigit(y[k])
    requires forall k :: 0 <= k < |z| ==> IsDigit(z[k])
    ensures PhoneFormat("(" + x + " " + y + "-" + z) == "(" + x + ") " + y + "-" + z
  {
    OpenBracketDigits(x, y, z);
    var d := x + y + z;
    assert d[..3] == x && d[3..6] == y && d[6..] == z;
  }

}
