/** Decimal numerals as the scripts print and read them.

    Git prints positions with them, the scanner reads positions from them, and the operation inventory pads its indices to
    three digits. Each use rests on one fact: what was printed is read back as the same number. */
module Decimal {

  predicate IsDigit(c: char) {
    '0' <= c <= '9'
  }

  predicate AllDigits(s: string) {
    forall i :: 0 <= i < |s| ==> IsDigit(s[i])
  }

  function DigitChar(d: nat): char
    requires d < 10
  {
    '0' + d as char
  }

  function Show(n: nat): string {
    if n < 10 then [DigitChar(n)] else Show(n / 10) + [DigitChar(n % 10)]
  }

  function Read(s: string): nat
    requires AllDigits(s)
  {
    if s == "" then 0 else 10 * Read(s[..|s| - 1]) + (s[|s| - 1] - '0') as nat
  }

  lemma {:induction false} ReadShow(n: nat)
    ensures Show(n) != "" && AllDigits(Show(n)) && Read(Show(n)) == n
  {
    if n >= 10 {
      ReadShow(n / 10);
      var front, last := Show(n / 10), DigitChar(n % 10);
      assert Show(n)[..|Show(n)| - 1] == front;
    } else {
      assert Show(n)[..0] == "";
    }
  }

  /** How many digits a text starts with. */
  function DigitRun(s: string): (k: nat)
    ensures k <= |s| && AllDigits(s[..k])
  {
    if s == "" || !IsDigit(s[0]) then 0 else 1 + DigitRun(s[1..])
  }

  lemma {:induction false} DigitRunStops(a: string, r: string)
    requires AllDigits(a) && (r == "" || !IsDigit(r[0]))
    ensures DigitRun(a + r) == |a|
  {
    if a == "" {
      assert a + r == r;
    } else {
      assert (a + r)[1..] == a[1..] + r;
      DigitRunStops(a[1..], r);
    }
  }

  /** `f"{n:03d}"` */
  function Pad3(n: nat): string {
    if n < 10 then "00" + Show(n) else if n < 100 then "0" + Show(n) else Show(n)
  }

  lemma {:induction false} LeadingZero(s: string)
    requires AllDigits(s)
    ensures AllDigits("0" + s) && Read("0" + s) == Read(s)
  {
    var t := "0" + s;
    if s == "" {
      assert t[..0] == "";
    } else {
      assert t[..|t| - 1] == "0" + s[..|s| - 1];
      LeadingZero(s[..|s| - 1]);
    }
  }

  /** Padding loses no number, so two indices never get one padded form. */
  lemma ReadPad3(n: nat)
    ensures AllDigits(Pad3(n)) && Read(Pad3(n)) == n
  {
    ReadShow(n);
    LeadingZero(Show(n));
    LeadingZero("0" + Show(n));
    assert "00" + Show(n) == "0" + ("0" + Show(n));
  }

  lemma {:induction false} ShowWidth(n: nat)
    ensures |Show(n)| == 1 <==> n < 10
    ensures |Show(n)| == 2 <==> 10 <= n < 100
    ensures |Show(n)| == 3 <==> 100 <= n < 1000
    ensures Show(n) != "" && (n > 0 ==> Show(n)[0] != '0')
  {
    if n >= 10 {
      ShowWidth(n / 10);
      assert Show(n)[0] == Show(n / 10)[0];
    }
  }

}
