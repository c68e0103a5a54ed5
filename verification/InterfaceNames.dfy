/** Netdev names: `InterfacePlanner.iface_name` of gateway/sbegw/wifid.py, on the texts it works on. */
module InterfaceNames {
  import opened Texts

  const DIGITS := "0123456789"

  /** `str(n)` */
  function Decimal(n: nat): (t: string)
    ensures t != ""
  {
    if n < 10 then [DIGITS[n]] else Decimal(n / 10) + [DIGITS[n % 10]]
  }

  function IntText(n: int): string {
    if n < 0 then "-" + Decimal(-n) else Decimal(n)
  }

  function IfaceName(radioId: string, index: int): string {
    "wl" + Without(Without(radioId, "radio-"), "-") + IntText(index)
  }

  predicate IsDigit(c: char) {
    '0' <= c <= '9'
  }

  lemma {:induction false} DecimalIsDigits(n: nat)
    ensures forall i | 0 <= i < |Decimal(n)| :: IsDigit(Decimal(n)[i])
  {
    if n >= 10 { DecimalIsDigits(n / 10); }
  }

  lemma {:induction false} DecimalInjective(m: nat, n: nat)
    ensures Decimal(m) == Decimal(n) <==> m == n
    decreases m + n
  {
    var a, b := Decimal(m), Decimal(n);
    if a == b {
      assert a[|a| - 1] == b[|b| - 1];
      assert DIGITS[m % 10] == a[|a| - 1] && DIGITS[n % 10] == b[|b| - 1];
      if m < 10 || n < 10 {
        assert |a| == |b| == 1;
      } else {
        assert a[..|a| - 1] == Decimal(m / 10) && b[..|b| - 1] == Decimal(n / 10);
        DecimalInjective(m / 10, n / 10);
      }
    }
  }

  lemma {:induction false} SignInText(n: int)
    ensures IntText(n) != "" && (IntText(n)[0] == '-' <==> n < 0)
  {
    if n >= 0 {
      DecimalIsDigits(n);
      assert IsDigit(Decimal(n)[0]);
    }
  }

  lemma AppendInjective(prefix: string, a: string, b: string)
    ensures prefix + a == prefix + b <==> a == b
  {
    assert (prefix + a)[|prefix|..] == a && (prefix + b)[|prefix|..] == b;
  }

  lemma {:induction false} IntTextInjective(m: int, n: int)
    ensures IntText(m) == IntText(n) <==> m == n
  {
    SignInText(m);
    SignInText(n);
    if m < 0 && n < 0 {
      AppendInjective("-", Decimal(-m), Decimal(-n));
      DecimalInjective(-m, -n);
    } else if m >= 0 && n >= 0 {
      DecimalInjective(m, n);
    }
  }

  /** On one radio, names tell the slots apart whatever the id looks like. */
  lemma {:induction false} SameRadioNamesInjective(radioId: string, m: int, n: int)
    ensures IfaceName(radioId, m) == IfaceName(radioId, n) <==> m == n
  {
    IntTextInjective(m, n);
    AppendInjective("wl" + Without(Without(radioId, "radio-"), "-"), IntText(m), IntText(n));
  }

  const BANDS: set<string> := {"2g", "5g", "6g"}

  predicate IsSuffix(suffix: string) {
    suffix == "" || (|suffix| == 1 && '2' <= suffix[0] <= '9')
  }

  /** The ids discovery hands out: radio-B, or radio-B-k for the k-th radio of a band. */
  predicate IsRadioId(id: string, band: string, suffix: string) {
    && band in BANDS
    && IsSuffix(suffix)
    && id == "radio-" + band + (if suffix == "" then "" else "-" + suffix)
  }

  ghost predicate WellNamed(id: string) {
    exists band, suffix :: IsRadioId(id, band, suffix)
  }

  lemma {:induction false} CompactName(id: string, band: string, suffix: string)
    requires IsRadioId(id, band, suffix)
    ensures Without(Without(id, "radio-"), "-") == band + suffix
  {
    var rest := band + (if suffix == "" then "" else "-" + suffix);
    assert id[..6] == "radio-" && id[6..] == rest;
    assert Without(id, "radio-") == rest;
    assert rest[0] == band[0] && rest[1] == band[1];
    assert rest[1..] == [band[1]] + rest[2..];
    if suffix == "" {
      assert rest[2..] == "";
      assert Without(rest[2..], "-") == "";
    } else {
      assert rest[2..] == "-" + suffix;
      assert rest[2..][1..] == suffix;
      assert Without(suffix, "-") == [suffix[0]] + Without(suffix[1..], "-") == suffix;
      assert Without(rest[2..], "-") == suffix;
    }
    assert Without(rest[1..], "-") == [band[1]] + suffix;
    assert Without(rest, "-") == [band[0]] + Without(rest[1..], "-");
  }

  lemma {:induction false} SmallDecimal(n: nat)
    requires n < 16
    ensures |Decimal(n)| == 1 || (|Decimal(n)| == 2 && Decimal(n)[0] == '1')
  {
    if n >= 10 { assert n / 10 == 1; assert Decimal(1) == ['1']; }
  }

  lemma {:induction false} TailsInjective(s: string, m: nat, t: string, n: nat)
    requires IsSuffix(s) && IsSuffix(t) && m < 16 && n < 16
    ensures s + Decimal(m) == t + Decimal(n) <==> s == t && m == n
  {
    SmallDecimal(m);
    SmallDecimal(n);
    DecimalInjective(m, n);
    var x, y := s + Decimal(m), t + Decimal(n);
    assert s != "" ==> x[0] == s[0] && x[1..] == Decimal(m);
    assert t != "" ==> y[0] == t[0] && y[1..] == Decimal(n);
    assert s == "" ==> x == Decimal(m);
    assert t == "" ==> y == Decimal(n);
  }

  lemma {:induction false} NameParts(id: string, band: string, suffix: string, n: nat)
    requires IsRadioId(id, band, suffix)
    ensures IfaceName(id, n) == "wl" + band + (suffix + Decimal(n))
    ensures IfaceName(id, n)[2] == band[0] && IfaceName(id, n)[4..] == suffix + Decimal(n)
  {
    CompactName(id, band, suffix);
    assert "wl" + (band + suffix) + Decimal(n) == "wl" + band + (suffix + Decimal(n));
  }

  /** Names of discovered radios, slots below sixteen: no two (radio, slot) pairs share one. */
  lemma {:induction false} NamesInjective(a: string, m: int, b: string, n: int)
    requires WellNamed(a) && WellNamed(b)
    requires 0 <= m < 16 && 0 <= n < 16
    ensures IfaceName(a, m) == IfaceName(b, n) <==> a == b && m == n
  {
    var bandA, suffixA :| IsRadioId(a, bandA, suffixA);
    var bandB, suffixB :| IsRadioId(b, bandB, suffixB);
    NameParts(a, bandA, suffixA, m);
    NameParts(b, bandB, suffixB, n);
    if IfaceName(a, m) == IfaceName(b, n) {
      assert bandA[0] == bandB[0];
      TailsInjective(suffixA, m, suffixB, n);
    }
  }

  /** From slot twenty on the names run into those of the band's second radio. */
  lemma HighSlotsCollide()
    ensures IfaceName("radio-5g", 20) == IfaceName("radio-5g-2", 0)
  {
    CompactName("radio-5g", "5g", "");
    CompactName("radio-5g-2", "5g", "2");
    assert Decimal(20) == Decimal(2) + [DIGITS[0]] == "20";
  }

  /**
   * A first radio's name is the one of its band's k-th radio exactly when its slot reads k followed by the other
   * slot.
   */
  lemma {:induction false} FirstAndLaterRadioCollideIff(first: string, later: string, band: string, suffix: string,
                                                m: nat, n: nat)
    requires IsRadioId(first, band, "") && IsRadioId(later, band, suffix) && suffix != ""
    ensures IfaceName(first, m) == IfaceName(later, n) <==> Decimal(m) == suffix + Decimal(n)
  {
    NameParts(first, band, "", m);
    NameParts(later, band, suffix, n);
    assert "" + Decimal(m) == Decimal(m);
    var x, y := IfaceName(first, m), IfaceName(later, n);
    assert x == "wl" + band + x[4..] && y == "wl" + band + y[4..];
  }
}
