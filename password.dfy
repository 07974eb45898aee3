/**
 * The memo lock: `MemoManager.hashPassword`, a 32-bit rolling hash written out
 * as its decimal text, and `verifyPassword`, which compares a stored hash with
 * the hash of an answer. Neither touches the manager's state.
 */
module Password {
  import opened JsNumber

  /**
   * The hash after the whole string: starting from 0, each character code c
   * turns the running value h into ToInt32(31 * h + c).
   */
  function Hash(s: string): (h: int)
    ensures IsInt32(h)
    decreases |s|
  {
    if s == [] then 0 else ToInt32(31 * Hash(s[..|s| - 1]) + s[|s| - 1] as int)
  }

  /** What `hashPassword` returns: the hash as `toString()` writes it. */
  function HashString(s: string): string {
    IntToDecimal(Hash(s))
  }

  /** `(h << 5) - h + c`, then `& itself`, is one step of Hash. */
  lemma ShiftSubtractStep(h: int, c: int)
    ensures ToInt32(ToInt32(h * 32) - h + c) == ToInt32(31 * h + c)
  {
    var shifted := ToInt32(h * 32);
    var q := (h * 32 - shifted) / TwoTo32;
    assert h * 32 - shifted == TwoTo32 * q;
    var x, y := shifted - h + c, 31 * h + c;
    assert x - y == TwoTo32 * (0 - q);
    ToInt32Congruent(x, y);
  }

  /** `hashPassword`: the loop over the character codes of the password. */
  method HashPassword(password: string) returns (r: string)
    ensures r == HashString(password)
  {
    var hash := 0;
    var i := 0;
    while i < |password|
      invariant 0 <= i <= |password|
      invariant hash == Hash(password[..i])
    {
      var code := password[i] as int;
      var shifted := ToInt32(hash * 32);
      ShiftSubtractStep(hash, code);
      hash := ToInt32(shifted - hash + code);
      assert password[..i + 1][..i] == password[..i];
      i := i + 1;
    }
    assert password[..i] == password;
    r := IntToDecimal(hash);
  }

  /** `verifyPassword`: does the answer hash to the stored text? */
  function VerifyPassword(storedHash: string, answer: string): bool {
    HashString(answer) == storedHash
  }

  /**
   * Against a hash the store wrote, an answer is accepted exactly when the two
   * 32-bit hashes agree: the decimal text loses nothing. In particular the
   * password that was stored is always accepted.
   */
  lemma VerifyStoredHash(password: string, answer: string)
    ensures VerifyPassword(HashString(password), answer) <==> Hash(answer) == Hash(password)
    ensures VerifyPassword(HashString(password), password)
  {
    DecimalInjective(Hash(answer), Hash(password));
  }

  /** The code the lock accepts: four ASCII digits. */
  predicate IsFourDigitCode(s: string) {
    |s| == 4 && AllDigits(s)
  }

  /** The largest hash a string of n digits can reach while nothing wraps. */
  function DigitHashMax(n: nat): nat {
    if n == 0 then 0 else 31 * DigitHashMax(n - 1) + '9' as int
  }

  /** Up to the length where DigitHashMax fits in 31 bits, a digit string's hash never wraps. */
  lemma {:induction false} DigitHashNoWrap(s: string)
    requires AllDigits(s) && DigitHashMax(|s|) < TwoTo31
    ensures 0 <= Hash(s) <= DigitHashMax(|s|)
    ensures s != [] ==> Hash(s) == 31 * Hash(s[..|s| - 1]) + s[|s| - 1] as int
    decreases |s|
  {
    if s != [] {
      var prefix, c := s[..|s| - 1], s[|s| - 1];
      assert AllDigits(prefix) && |prefix| == |s| - 1;
      assert DigitHashMax(|s|) == 31 * DigitHashMax(|prefix|) + '9' as int;
      DigitHashNoWrap(prefix);
      assert IsDigit(c);
      var v := 31 * Hash(prefix) + c as int;
      assert 0 <= v <= DigitHashMax(|s|);
      assert Hash(s) == ToInt32(v);
      ToInt32OfInt32(v);
    } else {
      assert Hash(s) == 0;
    }
  }

  /** Two digit strings of one such length with the same hash are the same string. */
  lemma {:induction false} DigitHashInjective(s: string, t: string)
    requires AllDigits(s) && AllDigits(t) && |s| == |t|
    requires DigitHashMax(|s|) < TwoTo31
    requires Hash(s) == Hash(t)
    ensures s == t
    decreases |s|
  {
    if s != [] {
      var ps, pt := s[..|s| - 1], t[..|t| - 1];
      assert DigitHashMax(|s|) == 31 * DigitHashMax(|ps|) + '9' as int;
      DigitHashNoWrap(s);
      DigitHashNoWrap(t);
      LastDigitStep(Hash(ps), Hash(pt), s[|s| - 1], t[|t| - 1]);
      assert AllDigits(ps) && AllDigits(pt);
      DigitHashInjective(ps, pt);
      assert s == ps + [s[|s| - 1]] && t == pt + [t[|t| - 1]];
    }
  }

  /** One hash step on digits loses nothing: both the previous hash and the digit can be read back. */
  lemma LastDigitStep(a: int, b: int, c: char, d: char)
    requires IsDigit(c) && IsDigit(d)
    requires 31 * a + c as int == 31 * b + d as int
    ensures a == b && c == d
  {
  }

  /** A lock set with a four-digit code opens for exactly that code among four-digit answers. */
  lemma FourDigitLockExact(code: string, answer: string)
    requires IsFourDigitCode(code) && IsFourDigitCode(answer)
    ensures VerifyPassword(HashString(code), answer) <==> answer == code
  {
    VerifyStoredHash(code, answer);
    assert DigitHashMax(4) == 1754688;
    if Hash(answer) == Hash(code) {
      DigitHashInjective(answer, code);
    }
  }

  /** One more character: the running hash takes one step. */
  lemma HashSnoc(s: string, c: char)
    ensures Hash(s + [c]) == ToInt32(31 * Hash(s) + c as int)
  {
    var t := s + [c];
    assert t[..|t| - 1] == s;
    assert t[|t| - 1] == c;
  }

  /** The hash is no barrier: a two-character answer opens the lock set with 1234. */
  lemma ShortAnswerOpensLock()
    ensures VerifyPassword(HashString("1234"), "\U{BE33}\U{15}")
    ensures "1234" != "\U{BE33}\U{15}"
  {
    HashSnoc([], '1');
    ToInt32OfInt32(49);
    assert Hash("1") == 49 by { assert "1" == [] + ['1']; }
    HashSnoc("1", '2');
    ToInt32OfInt32(1569);
    assert Hash("12") == 1569 by { assert "12" == "1" + ['2']; }
    HashSnoc("12", '3');
    ToInt32OfInt32(48690);
    assert Hash("123") == 48690 by { assert "123" == "12" + ['3']; }
    HashSnoc("123", '4');
    ToInt32OfInt32(1509442);
    assert Hash("1234") == 1509442 by { assert "1234" == "123" + ['4']; }
    HashSnoc([], '\U{BE33}');
    ToInt32OfInt32(48691);
    assert Hash("\U{BE33}") == 48691 by { assert "\U{BE33}" == [] + ['\U{BE33}']; }
    HashSnoc("\U{BE33}", '\U{15}');
    assert Hash("\U{BE33}\U{15}") == 1509442 by { assert "\U{BE33}\U{15}" == "\U{BE33}" + ['\U{15}']; }
  }
}
