/** The Content-Length digits: Go's `fmt.Sprintf("%d", n)` for a length n >= 0, and reading
    such digits back. */
module Decimal {
  import opened Bytes

  predicate IsDigit(b: byte) {
    '0' as int <= b <= '9' as int
  }

  predicate AllDigits(s: seq<byte>) {
    forall i :: 0 <= i < |s| ==> IsDigit(s[i])
  }

  /** What `%d` produces for a natural number: at least one digit and no leading zero except
      in "0" itself. */
  predicate Canonical(s: seq<byte>) {
    |s| >= 1 && AllDigits(s) && (s[0] == '0' as int ==> |s| == 1)
  }

  /** Base-ten rendering, most significant digit first. */
  function Digits(n: nat): (s: seq<byte>)
    ensures Canonical(s)
    ensures s[0] == '0' as int <==> n == 0
    decreases n
  {
    if n < 10 then [48 + n] else Digits(n / 10) + [48 + n % 10]
  }

  /** The number a run of digits denotes. */
  function Value(s: seq<byte>): nat
    requires AllDigits(s)
  {
    if s == [] then 0 else Value(s[..|s| - 1]) * 10 + (s[|s| - 1] - 48)
  }

  /** Reading the digits back gives the number that was rendered. */
  lemma {:induction false} ValueOfDigits(n: nat)
    ensures Value(Digits(n)) == n
    decreases n
  {
    var s := Digits(n);
    if n >= 10 {
      ValueOfDigits(n / 10);
      assert s[..|s| - 1] == Digits(n / 10);
    }
  }

  /** A run of digits without a leading zero denotes a positive number. */
  lemma {:induction false} ValuePositive(s: seq<byte>)
    requires |s| >= 1 && AllDigits(s) && s[0] != '0' as int
    ensures Value(s) >= 1
    decreases |s|
  {
    if |s| > 1 {
      ValuePositive(s[..|s| - 1]);
    }
  }

  /** Rendering is onto the canonical digit strings: rendering what a canonical string denotes
      gives that string back, so the rendering and the reading are inverse bijections. */
  lemma {:induction false} DigitsOfValue(s: seq<byte>)
    requires Canonical(s)
    ensures Digits(Value(s)) == s
    decreases |s|
  {
    if |s| > 1 {
      var p := s[..|s| - 1];
      assert p[0] == s[0];
      ValuePositive(p);
      DigitsOfValue(p);
      assert Value(s) / 10 == Value(p) && Value(s) % 10 == s[|s| - 1] - 48;
    }
  }
}
