/**
 * The console menu (index.js:103-117, 132-154): which entries are offered,
 * and how a typed answer picks one through `parseInt(answer) - 1`.
 */
module Menu {
  import opened Wrappers
  import opened JsText

  /** What a menu entry does when chosen. */
  datatype Action =
    | ApplySetting    // "일반 권한 실행 설정": applyPrivilege, then continue
    | RemoveSetting   // "권한 설정 해제": removePrivilege, then continue
    | Exit            // "종료": leave the main loop

  /**
   * The entries shown (index.js:132-154): only "exit" when the starter is
   * not installed; otherwise apply or remove, depending on the current
   * setting, followed by "exit".
   */
  function MenuFor(installed: bool, isSet: bool): (menu: seq<Action>)
    ensures |menu| >= 1 && menu[|menu| - 1] == Exit
  {
    if !installed then [Exit]
    else if !isSet then [ApplySetting, Exit]
    else [RemoveSetting, Exit]
  }

  /**
   * Exit is the last entry and no other; applying is offered exactly when
   * the starter is installed and the setting is off, removing exactly when
   * it is installed and the setting is on.
   */
  lemma MenuOffers(installed: bool, isSet: bool)
    ensures var menu := MenuFor(installed, isSet);
            && (forall i :: 0 <= i < |menu| ==> (menu[i] == Exit <==> i == |menu| - 1))
            && (ApplySetting in menu <==> installed && !isSet)
            && (RemoveSetting in menu <==> installed && isSet)
            && (|menu| == 1 <==> !installed)
  {
  }

  /** A decimal digit, `0`-`9`. */
  predicate IsDecimalDigit(c: char) {
    '0' <= c <= '9'
  }

  /** A digit in base 16 (`0`-`9`, `a`-`f`, `A`-`F`) or, for `radix == 10`, in base 10. */
  predicate IsDigitIn(c: char, radix: nat) {
    if radix == 16 then IsDecimalDigit(c) || 'a' <= c <= 'f' || 'A' <= c <= 'F'
    else IsDecimalDigit(c)
  }

  function DigitValue(c: char): (v: nat)
    ensures IsDigitIn(c, 16) ==> v < 16
    ensures IsDecimalDigit(c) ==> v < 10
  {
    if IsDecimalDigit(c) then c as nat - '0' as nat
    else if 'a' <= c <= 'f' then c as nat - 'a' as nat + 10
    else if 'A' <= c <= 'F' then c as nat - 'A' as nat + 10
    else 0
  }

  /** Length of the longest prefix of `s` made of digits in `radix`. */
  function DigitRun(s: string, radix: nat): (n: nat)
    ensures n <= |s|
    decreases |s|
  {
    if s != [] && IsDigitIn(s[0], radix) then 1 + DigitRun(s[1..], radix) else 0
  }

  /** The number written by the digits `z` in `radix`, most significant first. */
  function DigitsValue(z: string, radix: nat): nat
    decreases |z|
  {
    if z == [] then 0 else DigitsValue(z[..|z| - 1], radix) * radix + DigitValue(z[|z| - 1])
  }

  /**
   * `parseInt(s)` with no radix, `None` standing for `NaN`: leading
   * whitespace skipped, one optional sign, then the unsigned part. `-0`
   * is read as 0, which `- 1` turns into the same -1 either way.
   */
  function ParseInt(s: string): Option<int> {
    var t := TrimStart(s);
    var negative := t != [] && t[0] == '-';
    var u := if t != [] && (t[0] == '+' || t[0] == '-') then t[1..] else t;
    match ParseUnsigned(u)
    case None => None
    case Some(value) => Some(if negative then -(value as int) else value as int)
  }

  /**
   * The unsigned part of `parseInt`: a `0x`/`0X` prefix switches to base 16,
   * then the longest run of digits is read; no digit at all gives `NaN`.
   */
  function ParseUnsigned(u: string): Option<nat> {
    var hex := |u| >= 2 && u[0] == '0' && (u[1] == 'x' || u[1] == 'X');
    var radix := if hex then 16 else 10;
    var digits := if hex then u[2..] else u;
    var n := DigitRun(digits, radix);
    if n == 0 then None else Some(DigitsValue(digits[..n], radix))
  }

  /** The decimal digits of `n`, without sign or leading zeros. */
  function DecimalString(n: nat): (s: string)
    ensures s != [] && forall i :: 0 <= i < |s| ==> IsDecimalDigit(s[i])
    ensures s[0] == '0' ==> n == 0
    decreases n
  {
    if n < 10 then [('0' as nat + n) as char]
    else DecimalString(n / 10) + [('0' as nat + n % 10) as char]
  }

  /** Reading the decimal digits of `n` gives `n` back. */
  lemma {:induction false} DecimalStringValue(n: nat)
    ensures DigitsValue(DecimalString(n), 10) == n
    decreases n
  {
    if n >= 10 {
      DecimalStringValue(n / 10);
      var s := DecimalString(n);
      assert s[..|s| - 1] == DecimalString(n / 10);
    }
  }

  /** The digit run of `z + rest` is all of `z` when `z` is digits and `rest` does not start with one. */
  lemma {:induction false} DigitRunOfDigits(z: string, rest: string, radix: nat)
    requires forall i :: 0 <= i < |z| ==> IsDigitIn(z[i], radix)
    requires rest == [] || !IsDigitIn(rest[0], radix)
    ensures DigitRun(z + rest, radix) == |z|
    decreases |z|
  {
    if z != [] {
      assert (z + rest)[1..] == z[1..] + rest;
      DigitRunOfDigits(z[1..], rest, radix);
    } else {
      assert z + rest == rest;
    }
  }

  /**
   * The answer `n`, written in decimal after any blanks and followed by
   * anything that does not continue the number, is read as `n`.
   */
  lemma ParseDecimal(blank: string, n: nat, rest: string)
    requires AllWhiteSpace(blank)
    requires rest == [] || (!IsDecimalDigit(rest[0]) && rest[0] != 'x' && rest[0] != 'X')
    ensures ParseInt(blank + DecimalString(n) + rest) == Some(n)
  {
    var z := DecimalString(n);
    assert blank + z + rest == blank + (z + rest);
    TrimStartAfterBlank(blank, z + rest);
    ParseUnsignedDecimal(n, rest);
  }

  /** The unsigned part of `DecimalString(n) + rest` reads as `n`. */
  lemma ParseUnsignedDecimal(n: nat, rest: string)
    requires rest == [] || (!IsDecimalDigit(rest[0]) && rest[0] != 'x' && rest[0] != 'X')
    ensures ParseUnsigned(DecimalString(n) + rest) == Some(n)
  {
    var z := DecimalString(n);
    var u := z + rest;
    if |u| >= 2 && u[0] == '0' {
      assert z == "0";
      assert u[1] == rest[0];
    }
    DigitRunOfDigits(z, rest, 10);
    assert u[..|z|] == z;
    DecimalStringValue(n);
  }

  /** Skipping leading whitespace stops at the first character that is not whitespace. */
  lemma {:induction false} TrimStartAfterBlank(blank: string, s: string)
    requires AllWhiteSpace(blank)
    requires s == [] || !IsWhiteSpace(s[0])
    ensures TrimStart(blank + s) == s
    decreases |blank|
  {
    if blank == [] {
      assert blank + s == s;
    } else {
      assert (blank + s)[1..] == blank[1..] + s;
      TrimStartAfterBlank(blank[1..], s);
    }
  }

  /** An answer with no digit where the number should start, such as an empty line, is `NaN`. */
  lemma ParseIntNoDigits(blank: string, rest: string)
    requires AllWhiteSpace(blank)
    requires rest == [] || (!IsDecimalDigit(rest[0]) && !IsWhiteSpace(rest[0]) && rest[0] != '+' && rest[0] != '-')
    ensures ParseInt(blank + rest) == None
  {
    TrimStartAfterBlank(blank, rest);
  }

  /** `parseInt` also reads the base-16 prefix: `0x2` is the same answer as `2`. */
  lemma ParseIntHex()
    ensures ParseInt("0x2") == Some(2)
  {
    assert TrimStart("0x2") == "0x2";
    assert "0x2"[2..] == "2";
    assert DigitRun("2", 16) == 1;
    assert DigitsValue("2", 16) == 2;
  }

  /**
   * `options[parseInt(answer) - 1]` (index.js:108-110): the position of the
   * chosen entry, or `None` when the answer is `NaN` or out of range, which
   * the tool reports as an invalid choice.
   */
  function DecodeSelection(answer: string, count: nat): (index: Option<nat>)
    ensures index.Some? ==> index.value < count
  {
    match ParseInt(answer)
    case None => None
    case Some(n) => if 1 <= n <= count then Some(n - 1) else None
  }

  /** An answer picks entry `i` exactly when it reads as the number `i + 1`, and `i` is on the menu. */
  lemma DecodeSelectionIff(answer: string, count: nat, i: nat)
    ensures DecodeSelection(answer, count) == Some(i) <==> ParseInt(answer) == Some(i + 1) && i < count
  {
  }

  /** Typing the number shown next to an entry picks that entry. */
  lemma TypedNumberPicksEntry(k: nat, count: nat)
    requires 1 <= k <= count
    ensures DecodeSelection(DecimalString(k), count) == Some(k - 1)
  {
    ParseDecimal("", k, "");
    assert "" + DecimalString(k) + "" == DecimalString(k);
  }

  /** `0` is never a valid answer: it reads as entry -1. */
  lemma ZeroIsInvalid(count: nat)
    ensures DecodeSelection("0", count) == None
  {
    ParseDecimal("", 0, "");
    assert "" + DecimalString(0) + "" == "0";
  }

  /**
   * The entry an answer chooses from `menu`, as `showMenu` finds it; `None`
   * leads to "잘못된 선택입니다." and the loop starting over.
   */
  function Choose(menu: seq<Action>, answer: string): (choice: Option<Action>)
    ensures choice.Some? ==> choice.value in menu
  {
    match DecodeSelection(answer, |menu|)
    case None => None
    case Some(i) => Some(menu[i])
  }
}
