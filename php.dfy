/**
 * The small part of PHP's runtime semantics that the two scripts lean on:
 * suffix tests written with `substr_compare`, `substr` with a negative
 * length, the truthiness of strings, and reading a password line from
 * standard input.  PHP 8 semantics throughout.
 */
module Php {

  datatype Option<+T> = None | Some(value: T)

  datatype Result<+T, +E> = Ok(value: T) | Err(error: E)

  /** One byte of file content. */
  newtype byte = b: int | 0 <= b < 256

  function Min(a: int, b: int): int { if a <= b then a else b }

  function Max(a: int, b: int): int { if a <= b then b else a }

  /** `s` ends with `suffix`: the reference meaning of every suffix test below. */
  predicate EndsWith(s: string, suffix: string) {
    |suffix| <= |s| && s[|s| - |suffix|..] == suffix
  }

  /**
   * `zend_binary_strncmp(a, |a|, b, |b|, length) == 0`: the first
   * `min(length, |a|, |b|)` bytes agree and both strings, cut at `length`,
   * have the same length.
   */
  predicate StrncmpIsZero(a: string, b: string, length: nat) {
    var m := Min(length, Min(|a|, |b|));
    a[..m] == b[..m] && Min(length, |a|) == Min(length, |b|)
  }

  /**
   * `substr_compare(main, needle, -back) === 0` with the length argument
   * left out: a negative offset counts from the end and is clamped at 0,
   * and the comparison runs over the longer of the needle and the rest.
   */
  predicate SubstrCompareFromEndIsZero(main: string, needle: string, back: nat) {
    var offset := Max(0, |main| - back);
    var rest := main[offset..];
    StrncmpIsZero(rest, needle, Max(|needle|, |rest|))
  }

  /** The scripts' `substr_compare($s, $suffix, -strlen($suffix)) === 0` is an ends-with test. */
  lemma SubstrCompareIsEndsWith(s: string, suffix: string)
    ensures SubstrCompareFromEndIsZero(s, suffix, |suffix|) <==> EndsWith(s, suffix)
  {
    var offset := Max(0, |s| - |suffix|);
    var rest := s[offset..];
    if |suffix| <= |s| {
      assert |rest| == |suffix|;
      assert rest[..|rest|] == rest && suffix[..|suffix|] == suffix;
    } else {
      assert rest == s;
      assert Min(Max(|suffix|, |rest|), |rest|) == |s| < |suffix|;
    }
  }

  /** Ending with a longer suffix implies ending with each of its own suffixes. */
  lemma EndsWithTransitive(s: string, t: string, u: string)
    requires EndsWith(s, t) && EndsWith(t, u)
    ensures EndsWith(s, u)
  {
    assert s[|s| - |u|..] == s[|s| - |t|..][|t| - |u|..];
  }

  /** A string ending with a non-empty suffix has the suffix's last character as its own last. */
  lemma EndsWithLastChar(s: string, suffix: string)
    requires EndsWith(s, suffix) && |suffix| > 0
    ensures s[|s| - 1] == suffix[|suffix| - 1]
  {
    assert s[|s| - 1] == s[|s| - |suffix|..][|suffix| - 1];
  }

  /** Appending a suffix makes the string end with it. */
  lemma EndsWithAppended(s: string, suffix: string)
    ensures EndsWith(s + suffix, suffix)
  {
    assert (s + suffix)[|s|..] == suffix;
  }

  /**
   * `substr($s, 0, -k)`: all but the last `k` characters; PHP 8 gives the
   * empty string when `s` is shorter than `k`, and `substr($s, 0, 0)` is
   * the empty string too.
   */
  function DropLast(s: string, k: nat): (r: string)
    ensures |r| == if k == 0 then 0 else Max(0, |s| - k)
    ensures r <= s
  {
    if k == 0 then "" else if k <= |s| then s[..|s| - k] else ""
  }

  /** PHP's truthiness of a string: only "" and "0" are false. */
  predicate Truthy(s: string) {
    s != "" && s != "0"
  }

  /** `rtrim($s, PHP_EOL)` with PHP_EOL = "\n": strips every trailing newline. */
  function TrimEol(s: string): (r: string)
    ensures r <= s
    ensures r == [] || r[|r| - 1] != '\n'
    ensures forall i :: |r| <= i < |s| ==> s[i] == '\n'
  {
    if |s| > 0 && s[|s| - 1] == '\n' then TrimEol(s[..|s| - 1]) else s
  }

  /**
   * `$usePassword ? rtrim(fgets(STDIN), PHP_EOL) : ''`.  `line` is what
   * `fgets` would return (None for end of input, which PHP turns into "").
   */
  function ReadPassword(usePassword: bool, line: Option<string>): (password: string)
    ensures !usePassword ==> password == ""
    ensures usePassword && line.Some? ==> password <= line.value
    ensures usePassword && line.Some? ==> forall i :: |password| <= i < |line.value| ==> line.value[i] == '\n'
    ensures usePassword && line.None? ==> password == ""
    ensures password == [] || password[|password| - 1] != '\n'
  {
    if !usePassword then ""
    else match line
      case None => ""
      case Some(l) => TrimEol(l)
  }
}
