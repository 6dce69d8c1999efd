/**
 * The few JavaScript built-ins the CSV parser relies on, as functions on
 * strings: String.prototype.trim, String.prototype.split with a one-character
 * separator, and parseInt with radix 10. Join, which glues pieces back together
 * with a separator, is not called by the parser; it is here only to state the
 * round trips of split and of the line scan.
 * Strings are sequences of characters; the whitespace set is the one
 * ECMAScript's trim and parseInt skip (WhiteSpace and LineTerminator).
 */
module JsBuiltins {

  datatype Option<T> = None | Some(value: T)

  /** ECMAScript WhiteSpace (TAB, VT, FF, ZWNBSP and every Zs code point) and LineTerminator (LF, CR, LS, PS). */
  predicate IsWhitespace(c: char) {
    var n := c as int;
    n == 0x09 || n == 0x0A || n == 0x0B || n == 0x0C || n == 0x0D || n == 0x20 || n == 0xA0 ||
    n == 0x1680 || (0x2000 <= n <= 0x200A) || n == 0x2028 || n == 0x2029 || n == 0x202F ||
    n == 0x205F || n == 0x3000 || n == 0xFEFF
  }

  predicate AllWhitespace(s: string) {
    forall k :: 0 <= k < |s| ==> IsWhitespace(s[k])
  }

  /** Drops the leading whitespace: the result is the suffix of `s` that starts at its first non-whitespace character. */
  function TrimStart(s: string): (r: string)
    ensures |r| <= |s| && r == s[|s| - |r|..]
    ensures r == [] || !IsWhitespace(r[0])
  {
    if s != [] && IsWhitespace(s[0]) then TrimStart(s[1..]) else s
  }

  /** What TrimStart drops is whitespace. */
  lemma {:induction false} TrimStartDropsWhitespace(s: string)
    ensures AllWhitespace(s[..|s| - |TrimStart(s)|])
  {
    if s != [] && IsWhitespace(s[0]) {
      TrimStartDropsWhitespace(s[1..]);
      assert s[..|s| - |TrimStart(s)|] == [s[0]] + s[1..][..|s[1..]| - |TrimStart(s[1..])|];
    }
  }

  /** Drops the trailing whitespace: the result is the prefix of `s` that ends at its last non-whitespace character. */
  function TrimEnd(s: string): (r: string)
    ensures |r| <= |s| && r == s[..|r|]
    ensures r == [] || !IsWhitespace(r[|r| - 1])
  {
    if s != [] && IsWhitespace(s[|s| - 1]) then TrimEnd(s[..|s| - 1]) else s
  }

  /** What TrimEnd drops is whitespace. */
  lemma {:induction false} TrimEndDropsWhitespace(s: string)
    ensures AllWhitespace(s[|TrimEnd(s)|..])
  {
    if s != [] && IsWhitespace(s[|s| - 1]) {
      var t := s[..|s| - 1];
      TrimEndDropsWhitespace(t);
      assert s[|TrimEnd(s)|..] == t[|TrimEnd(t)|..] + [s[|s| - 1]];
    }
  }

  /** Number of characters `Trim` removes at the front. */
  function TrimOffset(s: string): nat {
    |s| - |TrimStart(s)|
  }

  /** String.prototype.trim: the longest infix of `s` that neither starts nor ends with whitespace. */
  function Trim(s: string): (r: string)
    ensures TrimOffset(s) + |r| <= |s|
    ensures r == s[TrimOffset(s)..TrimOffset(s) + |r|]
    ensures r == [] || (!IsWhitespace(r[0]) && !IsWhitespace(r[|r| - 1]))
  {
    TrimEnd(TrimStart(s))
  }

  /** Everything Trim removes, at either end, is whitespace. */
  lemma {:induction false} TrimDropsWhitespace(s: string)
    ensures AllWhitespace(s[..TrimOffset(s)]) && AllWhitespace(s[TrimOffset(s) + |Trim(s)|..])
  {
    var t := TrimStart(s);
    TrimStartDropsWhitespace(s);
    TrimEndDropsWhitespace(t);
    assert s[TrimOffset(s) + |Trim(s)|..] == t[|TrimEnd(t)|..];
  }

  lemma {:induction false} TrimStartOfWhitespace(w: string, s: string)
    requires AllWhitespace(w)
    ensures TrimStart(w + s) == TrimStart(s)
  {
    if w == [] {
      assert w + s == s;
    } else {
      assert (w + s)[0] == w[0];
      assert (w + s)[1..] == w[1..] + s;
      TrimStartOfWhitespace(w[1..], s);
    }
  }

  /** Trimming twice is trimming once. */
  lemma {:induction false} TrimIdempotent(s: string)
    ensures Trim(Trim(s)) == Trim(s)
  {
    var t := Trim(s);
    assert TrimStart(t) == t;
    assert TrimEnd(t) == t;
  }

  /** A string is blank (trims to the empty string) exactly when it is all whitespace. */
  lemma {:induction false} TrimEmptyIffWhitespace(s: string)
    ensures Trim(s) == [] <==> AllWhitespace(s)
  {
    TrimDropsWhitespace(s);
    if Trim(s) == [] {
      assert s == s[..TrimOffset(s)] + s[TrimOffset(s)..];
    } else {
      var k := TrimOffset(s);
      assert s[k] == Trim(s)[0];
    }
  }

  /** Every character of `t` occurs in `s`. */
  predicate CharsFrom(t: string, s: string) {
    forall j :: 0 <= j < |t| ==> t[j] in s
  }

  /**
   * String.prototype.split with a one-character separator: the pieces between the
   * separators, in order, empty pieces included; there is always at least one piece.
   */
  function SplitOn(s: string, sep: char): (r: seq<string>)
    ensures |r| >= 1
  {
    if s == [] then [""]
    else
      var rest := SplitOn(s[1..], sep);
      if s[0] == sep then [""] + rest
      else [[s[0]] + rest[0]] + rest[1..]
  }

  /** No piece of a split contains the separator. */
  lemma {:induction false} SplitOnPiecesAvoidSep(s: string, sep: char, k: nat)
    requires k < |SplitOn(s, sep)|
    ensures sep !in SplitOn(s, sep)[k]
  {
    if s != [] {
      var rest := SplitOn(s[1..], sep);
      if s[0] == sep {
        if k > 0 {
          SplitOnPiecesAvoidSep(s[1..], sep, k - 1);
        }
      } else if k == 0 {
        SplitOnPiecesAvoidSep(s[1..], sep, 0);
        assert SplitOn(s, sep)[0] == [s[0]] + rest[0];
      } else {
        SplitOnPiecesAvoidSep(s[1..], sep, k);
      }
    }
  }

  /** Every piece of a split is made of characters of the string. */
  lemma {:induction false} SplitOnPiecesFrom(s: string, sep: char, k: nat)
    requires k < |SplitOn(s, sep)|
    ensures CharsFrom(SplitOn(s, sep)[k], s)
  {
    if s != [] {
      var rest := SplitOn(s[1..], sep);
      if s[0] == sep {
        if k > 0 {
          SplitOnPiecesFrom(s[1..], sep, k - 1);
        }
      } else if k == 0 {
        SplitOnPiecesFrom(s[1..], sep, 0);
        assert SplitOn(s, sep)[0] == [s[0]] + rest[0];
      } else {
        SplitOnPiecesFrom(s[1..], sep, k);
      }
    }
  }

  /** Pieces glued together with a one-character separator (a proof helper, like Array.prototype.join). */
  function Join(pieces: seq<string>, sep: char): string {
    if pieces == [] then ""
    else if |pieces| == 1 then pieces[0]
    else pieces[0] + [sep] + Join(pieces[1..], sep)
  }

  /** A character other than the separator occurs in a join only if it occurs in a piece. */
  lemma {:induction false} JoinAvoids(pieces: seq<string>, sep: char, c: char)
    requires c != sep && forall k :: 0 <= k < |pieces| ==> c !in pieces[k]
    ensures c !in Join(pieces, sep)
  {
    if |pieces| > 1 {
      JoinAvoids(pieces[1..], sep, c);
      assert pieces[1..][0] == pieces[1];
    }
  }

  /** Joining the pieces of a split gives back the string. */
  lemma {:induction false} JoinSplitOn(s: string, sep: char)
    ensures Join(SplitOn(s, sep), sep) == s
  {
    if s != [] {
      var rest := SplitOn(s[1..], sep);
      JoinSplitOn(s[1..], sep);
      if s[0] == sep {
        assert SplitOn(s, sep) == [""] + rest;
        assert s == "" + [sep] + s[1..];
      } else {
        JoinConsFirst(s[0], rest, sep);
        assert s == [s[0]] + s[1..];
      }
    }
  }

  lemma {:induction false} JoinConsFirst(c: char, pieces: seq<string>, sep: char)
    requires |pieces| >= 1
    ensures Join([[c] + pieces[0]] + pieces[1..], sep) == [c] + Join(pieces, sep)
  {
    var q := [[c] + pieces[0]] + pieces[1..];
    if |pieces| > 1 {
      assert q[1..] == pieces[1..];
    }
  }

  /** Splitting a string whose first piece is `w` (free of the separator) yields `w` followed by the rest. */
  lemma {:induction false} SplitOnPrefix(w: string, t: string, sep: char)
    requires sep !in w
    ensures SplitOn(w + [sep] + t, sep) == [w] + SplitOn(t, sep)
  {
    if w == [] {
      assert w + [sep] + t == [sep] + t;
      assert ([sep] + t)[1..] == t;
    } else {
      assert (w + [sep] + t)[1..] == w[1..] + [sep] + t;
      SplitOnPrefix(w[1..], t, sep);
      assert [w[0]] + w[1..] == w;
    }
  }

  /** Splitting a join of separator-free pieces gives back the pieces. */
  lemma {:induction false} SplitOnJoin(pieces: seq<string>, sep: char)
    requires |pieces| >= 1
    requires forall k :: 0 <= k < |pieces| ==> sep !in pieces[k]
    ensures SplitOn(Join(pieces, sep), sep) == pieces
  {
    if |pieces| == 1 {
      SplitOnFree(pieces[0], sep);
    } else {
      SplitOnJoin(pieces[1..], sep);
      SplitOnPrefix(pieces[0], Join(pieces[1..], sep), sep);
    }
  }

  lemma {:induction false} SplitOnFree(w: string, sep: char)
    requires sep !in w
    ensures SplitOn(w, sep) == [w]
  {
    if w != [] {
      SplitOnFree(w[1..], sep);
      assert [w[0]] + w[1..] == w;
    }
  }

  predicate IsDigit(c: char) {
    '0' <= c <= '9'
  }

  predicate AllDigits(s: string) {
    forall k :: 0 <= k < |s| ==> IsDigit(s[k])
  }

  /** The longest prefix of `s` made of decimal digits. */
  function DigitPrefix(s: string): string {
    if s != [] && IsDigit(s[0]) then [s[0]] + DigitPrefix(s[1..]) else []
  }

  /** The digit prefix is the longest prefix made of digits. */
  lemma {:induction false} DigitPrefixIsLongest(s: string)
    ensures var r := DigitPrefix(s);
            |r| <= |s| && r == s[..|r|] && AllDigits(r) && (|r| == |s| || !IsDigit(s[|r|]))
  {
    if s != [] && IsDigit(s[0]) {
      DigitPrefixIsLongest(s[1..]);
      var r := DigitPrefix(s[1..]);
      assert DigitPrefix(s) == [s[0]] + r;
      assert s == [s[0]] + s[1..];
    }
  }

  /** The value of one digit character (0 for any other character, which never occurs). */
  function DigitValue(c: char): nat {
    if IsDigit(c) then c as int - '0' as int else 0
  }

  /** The value of a string of decimal digits, most significant first. */
  function DigitsValue(ds: string): nat
  {
    if ds == [] then 0 else DigitsValue(ds[..|ds| - 1]) * 10 + DigitValue(ds[|ds| - 1])
  }

  /**
   * parseInt(s, 10): skip leading whitespace, take an optional sign, then the
   * longest run of decimal digits. No digit at all is NaN, here None.
   */
  function ParseInt(s: string): Option<int> {
    ParseSigned(TrimStart(s))
  }

  /** parseInt after the leading whitespace is gone. */
  function ParseSigned(t: string): Option<int> {
    var signed := t != [] && (t[0] == '-' || t[0] == '+');
    var ds := DigitPrefix(if signed then t[1..] else t);
    var magnitude: int := DigitsValue(ds);
    if ds == [] then None
    else if signed && t[0] == '-' then Some(-magnitude)
    else Some(magnitude)
  }

  /** The decimal form of a natural number, without leading zeros. */
  function ShowNat(n: nat): (r: string)
    ensures |r| >= 1 && AllDigits(r)
  {
    if n < 10 then [('0' as int + n) as char]
    else ShowNat(n / 10) + [('0' as int + n % 10) as char]
  }

  /** The decimal form of an integer, as Number.prototype.toString gives it for integers. */
  function ShowInt(n: int): (r: string)
    ensures |r| >= 1
  {
    if n < 0 then "-" + ShowNat(-n) else ShowNat(n)
  }

  lemma {:induction false} DigitsValueOfShowNat(n: nat)
    ensures DigitsValue(ShowNat(n)) == n
  {
    if n >= 10 {
      var r := ShowNat(n);
      assert r[..|r| - 1] == ShowNat(n / 10);
      DigitsValueOfShowNat(n / 10);
    }
  }

  lemma {:induction false} DigitPrefixOfDigits(ds: string, rest: string)
    requires AllDigits(ds)
    requires rest == [] || !IsDigit(rest[0])
    ensures DigitPrefix(ds + rest) == ds
  {
    if ds == [] {
      assert ds + rest == rest;
    } else {
      assert (ds + rest)[1..] == ds[1..] + rest;
      DigitPrefixOfDigits(ds[1..], rest);
      assert [ds[0]] + ds[1..] == ds;
    }
  }

  /**
   * parseInt reads back the decimal form of every integer, also when text that
   * does not start with a digit follows it ("30 years" reads as 30).
   */
  lemma {:induction false} ParseIntOfShowInt(n: int, rest: string)
    requires rest == [] || !IsDigit(rest[0])
    ensures ParseInt(ShowInt(n) + rest).Some? && ParseInt(ShowInt(n) + rest).value == n
  {
    if n < 0 {
      var m: nat := -n;
      var t := ['-'] + (ShowNat(m) + rest);
      assert ShowInt(n) + rest == t;
      StartsWithNonWhitespace(t);
      DigitsValueOfShowNat(m);
      ParseSignedNegative(ShowNat(m), rest);
    } else {
      var t := ShowNat(n) + rest;
      assert ShowInt(n) + rest == t;
      assert t[0] == ShowNat(n)[0];
      StartsWithNonWhitespace(t);
      DigitsValueOfShowNat(n);
      ParseSignedDigits(ShowNat(n), rest);
    }
  }

  lemma {:induction false} StartsWithNonWhitespace(s: string)
    requires s != [] && !IsWhitespace(s[0])
    ensures TrimStart(s) == s
  {
  }

  lemma {:induction false} ParseSignedDigits(digits: string, rest: string)
    requires digits != [] && AllDigits(digits)
    requires rest == [] || !IsDigit(rest[0])
    ensures ParseSigned(digits + rest).Some? && ParseSigned(digits + rest).value == DigitsValue(digits)
  {
    DigitPrefixOfDigits(digits, rest);
    assert (digits + rest)[0] == digits[0];
  }

  lemma {:induction false} ParseSignedNegative(digits: string, rest: string)
    requires digits != [] && AllDigits(digits)
    requires rest == [] || !IsDigit(rest[0])
    ensures ParseSigned(['-'] + (digits + rest)).Some? && ParseSigned(['-'] + (digits + rest)).value == -(DigitsValue(digits) as int)
  {
    DigitPrefixOfDigits(digits, rest);
    var s := ['-'] + (digits + rest);
    assert s[1..] == digits + rest;
  }

  /** parseInt skips any leading whitespace. */
  lemma {:induction false} ParseIntSkipsWhitespace(w: string, s: string)
    requires AllWhitespace(w)
    ensures ParseInt(w + s) == ParseInt(s)
  {
    TrimStartOfWhitespace(w, s);
  }

  /** A string with no digit after its whitespace and sign is NaN. */
  lemma {:induction false} ParseIntNaN(s: string)
    requires forall k :: 0 <= k < |s| ==> !IsDigit(s[k])
    ensures ParseInt(s) == None
  {
    var t := TrimStart(s);
    if t != [] {
      assert t[0] == s[|s| - |t|];
    }
    if |t| > 1 {
      assert t[1] == s[|s| - |t| + 1];
    }
  }
}
