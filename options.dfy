/** The command-line validators of options.c: `set_port` and `set_address`.

    Both are loop-free: a range test, a string comparison and a pattern match,
    whose only effect is one conditional write of the caller's buffer. They are
    modelled as functions that return the status code together with the new
    contents of that buffer. */
module Options {

  /** The bounds `set_port` accepts for the integer `atoi` produced. */
  const MinPort := 1
  const MaxPort := 65535

  /** `char address[16]` in the server record: fifteen characters and the NUL. */
  const AddressBufferSize := 16

  /** The status a setter returns and the value its out-parameter holds afterwards. */
  datatype Setter<T> = Setter(status: int, value: T)

  /** set_port, on the integer `atoi` made of the option text (text that is not
      a number reads as 0). */
  function SetPort(port: int, parsed: int): (r: Setter<int>)
    ensures r.status == 0 || r.status == -1
    ensures r.status == 0 <==> MinPort <= parsed <= MaxPort
    ensures r.value == if r.status == 0 then parsed else port
  {
    if parsed <= 0 || parsed >= 65536 then Setter(-1, port) else Setter(0, parsed)
  }

  // ---------------------------------------------------------------------------
  // The address pattern, as written:
  //   ^(OCTET.){3}OCTET$   with
  //   OCTET = [0-9]|[1-9][0-9]|1([0-9][0-9])|2([0-4][0-9]|5[0-5])
  // The `.` is not escaped, so it stands for any one character.
  // ---------------------------------------------------------------------------

  predicate IsDigit(c: char) { '0' <= c <= '9' }

  /** One of the five alternatives of the octet group. */
  predicate IsOctet(t: string) {
    (|t| == 1 && IsDigit(t[0]))
    || (|t| == 2 && '1' <= t[0] <= '9' && IsDigit(t[1]))
    || (|t| == 3 && t[0] == '1' && IsDigit(t[1]) && IsDigit(t[2]))
    || (|t| == 3 && t[0] == '2' && '0' <= t[1] <= '4' && IsDigit(t[2]))
    || (|t| == 3 && t[0] == '2' && t[1] == '5' && '0' <= t[2] <= '5')
  }

  /** The whole of `s` matches `n` octet groups, each but the last followed by
      one arbitrary character. An octet group is at most three characters long,
      so trying the three lengths is the whole of the backtracking. */
  predicate MatchesOctets(s: string, n: nat)
    requires n >= 1
    decreases n
  {
    if n == 1 then IsOctet(s)
    else
      (1 < |s| && IsOctet(s[..1]) && MatchesOctets(s[2..], n - 1))
      || (2 < |s| && IsOctet(s[..2]) && MatchesOctets(s[3..], n - 1))
      || (3 < |s| && IsOctet(s[..3]) && MatchesOctets(s[4..], n - 1))
  }

  /** The anchored pattern of options.c: three octet-and-separator groups, then an octet. */
  predicate MatchesAddressPattern(s: string) {
    MatchesOctets(s, 4)
  }

  // ---------------------------------------------------------------------------
  // A reference definition, independent of the pattern: decimal numerals.
  // ---------------------------------------------------------------------------

  function DigitChar(d: nat): char
    requires d < 10
  {
    (48 + d) as char
  }

  /** The decimal numeral of `v`, without leading zeros. */
  function Decimal(v: nat): string
    decreases v
  {
    if v < 10 then [DigitChar(v)] else Decimal(v / 10) + [DigitChar(v % 10)]
  }

  predicate AllOctetValues(os: seq<nat>) {
    forall i :: 0 <= i < |os| ==> os[i] <= 255
  }

  /** The numerals of `os`, with `seps[i]` written between numeral `i` and numeral `i + 1`. */
  function Join(os: seq<nat>, seps: string): string
    requires |os| == |seps| + 1
    decreases |seps|
  {
    if |seps| == 0 then Decimal(os[0])
    else Decimal(os[0]) + [seps[0]] + Join(os[1..], seps[1..])
  }

  /** Four numbers in 0..255, written in decimal without leading zeros, with
      one character of any kind between neighbours. */
  ghost predicate IsOctetQuad(s: string) {
    exists os: seq<nat>, seps: string ::
      |os| == 4 && |seps| == 3 && AllOctetValues(os) && s == Join(os, seps)
  }

  /** set_address: the literal "localhost", or a match of the pattern, is copied
      into the buffer; anything else leaves the buffer as it was. */
  function SetAddress(address: string, opt: string): (r: Setter<string>)
    ensures r.status == 0 || r.status == -1
    ensures r.status == 0 <==> opt == "localhost" || IsOctetQuad(opt)
    ensures r.value == if r.status == 0 then opt else address
    ensures r.status == 0 ==> |r.value| < AddressBufferSize
  {
    if opt == "localhost" then
      Setter(0, opt)
    else if MatchesAddressPattern(opt) then
      PatternMeansOctetQuad(opt);
      MatchedLength(opt, 4);
      Setter(0, opt)
    else
      PatternMeansOctetQuad(opt);
      Setter(-1, address)
  }

  // ---------------------------------------------------------------------------
  // Lemmas
  // ---------------------------------------------------------------------------

  /** A string of `n` matched octet groups is between 2n-1 and 4n-1 characters
      long; for the address pattern, between 7 and 15. */
  lemma {:induction false} MatchedLength(s: string, n: nat)
    requires n >= 1 && MatchesOctets(s, n)
    ensures 2 * n - 1 <= |s| <= 4 * n - 1
    decreases n
  {
    if n > 1 {
      if 1 < |s| && IsOctet(s[..1]) && MatchesOctets(s[2..], n - 1) {
        MatchedLength(s[2..], n - 1);
      } else if 2 < |s| && IsOctet(s[..2]) && MatchesOctets(s[3..], n - 1) {
        MatchedLength(s[3..], n - 1);
      } else {
        MatchedLength(s[4..], n - 1);
      }
    }
  }

  /** Every string set_address accepts fits in the sixteen-byte address buffer
      together with its terminating NUL. */
  lemma AcceptedAddressFits(opt: string)
    requires opt == "localhost" || MatchesAddressPattern(opt)
    ensures |opt| < AddressBufferSize
  {
    if opt != "localhost" {
      MatchedLength(opt, 4);
    }
  }

  /** A numeral of a value up to 255 is an octet group. */
  lemma DecimalIsOctet(v: nat)
    requires v <= 255
    ensures IsOctet(Decimal(v))
    ensures 1 <= |Decimal(v)| <= 3
  {
    if v >= 10 {
      assert Decimal(v) == Decimal(v / 10) + [DigitChar(v % 10)];
      if v >= 100 {
        assert Decimal(v / 10) == Decimal(v / 100) + [DigitChar((v / 10) % 10)];
        assert Decimal(v) == [DigitChar(v / 100), DigitChar((v / 10) % 10), DigitChar(v % 10)];
      }
    }
  }

  /** An octet group is the numeral of a value up to 255. */
  lemma OctetIsDecimal(t: string) returns (v: nat)
    requires IsOctet(t)
    ensures v <= 255 && t == Decimal(v)
  {
    var d0 := t[0] as int - 48;
    if |t| == 1 {
      v := d0;
    } else if |t| == 2 {
      var d1 := t[1] as int - 48;
      v := 10 * d0 + d1;
      assert v / 10 == d0 && v % 10 == d1;
      assert DigitChar(d0) == t[0] && DigitChar(d1) == t[1];
    } else {
      var d1, d2 := t[1] as int - 48, t[2] as int - 48;
      v := 100 * d0 + 10 * d1 + d2;
      assert v / 10 == 10 * d0 + d1 && v % 10 == d2;
      assert (v / 10) / 10 == d0 && (v / 10) % 10 == d1;
      assert DigitChar(d0) == t[0] && DigitChar(d1) == t[1] && DigitChar(d2) == t[2];
      assert Decimal(v / 10) == [t[0], t[1]];
    }
  }

  /** Writing octet values with any separators gives a match of as many octet groups. */
  lemma {:induction false} JoinMatches(os: seq<nat>, seps: string)
    requires |os| == |seps| + 1 && AllOctetValues(os)
    ensures MatchesOctets(Join(os, seps), |os|)
    decreases |seps|
  {
    DecimalIsOctet(os[0]);
    if |seps| > 0 {
      var s := Join(os, seps);
      var head := Decimal(os[0]);
      var rest := Join(os[1..], seps[1..]);
      assert s == head + [seps[0]] + rest;
      assert s[..|head|] == head;
      assert s[|head| + 1..] == rest;
      JoinMatches(os[1..], seps[1..]);
    }
  }

  /** A match of `n` octet groups splits into `n` values up to 255 and the separators. */
  lemma {:induction false} MatchSplits(s: string, n: nat) returns (os: seq<nat>, seps: string)
    requires n >= 1 && MatchesOctets(s, n)
    ensures |os| == n && |seps| == n - 1 && AllOctetValues(os) && s == Join(os, seps)
    decreases n
  {
    if n == 1 {
      var v := OctetIsDecimal(s);
      os, seps := [v], [];
    } else {
      var len := if 1 < |s| && IsOctet(s[..1]) && MatchesOctets(s[2..], n - 1) then 1
                 else if 2 < |s| && IsOctet(s[..2]) && MatchesOctets(s[3..], n - 1) then 2
                 else 3;
      var v := OctetIsDecimal(s[..len]);
      var restOs, restSeps := MatchSplits(s[len + 1..], n - 1);
      os, seps := [v] + restOs, [s[len]] + restSeps;
      assert os[1..] == restOs && seps[1..] == restSeps;
      assert s == s[..len] + [s[len]] + s[len + 1..];
    }
  }

  /** The pattern of options.c accepts exactly the strings of four values in
      0..255, each written without leading zeros, separated by any characters. */
  lemma PatternMeansOctetQuad(s: string)
    ensures MatchesAddressPattern(s) <==> IsOctetQuad(s)
  {
    if MatchesAddressPattern(s) {
      var os, seps := MatchSplits(s, 4);
      assert |os| == 4 && |seps| == 3 && AllOctetValues(os) && s == Join(os, seps);
    }
    if IsOctetQuad(s) {
      var os, seps :| |os| == 4 && |seps| == 3 && AllOctetValues(os) && s == Join(os, seps);
      JoinMatches(os, seps);
    }
  }

  /** Any character separates octets: "1x2y3z4" is accepted. */
  lemma AnySeparatorAccepted()
    ensures SetAddress("0.0.0.0", "1x2y3z4") == Setter(0, "1x2y3z4")
  {
    JoinMatches([1, 2, 3, 4], "xyz");
    assert Join([1, 2, 3, 4], "xyz") == "1x2y3z4";
  }

  /** A leading zero makes a group longer than its numeral: "01.2.3.4" is refused. */
  lemma LeadingZeroRefused()
    ensures SetAddress("0.0.0.0", "01.2.3.4") == Setter(-1, "0.0.0.0")
  {
    var s := "01.2.3.4";
    assert !IsOctet(s[..2]) && !IsOctet(s[..3]);
    assert !IsOctet(s[2..][..1]) && !IsOctet(s[2..][..2]) && !IsOctet(s[2..][..3]);
    assert !MatchesOctets(s[2..], 3);
  }

  /** A value above 255 is refused: "256.1.1.1". */
  lemma ValueAbove255Refused()
    ensures SetAddress("0.0.0.0", "256.1.1.1") == Setter(-1, "0.0.0.0")
  {
    var s := "256.1.1.1";
    assert !IsOctet(s[..3]);
    assert !MatchesOctets(s[2..], 3) by {
      var t := s[2..];
      assert t == "6.1.1.1";
      assert !MatchesOctets(t[2..], 2) by {
        var u := t[2..];
        assert u == "1.1.1";
        assert !MatchesOctets(u[2..], 1);
        assert !IsOctet(u[..2]) && !IsOctet(u[..3]);
      }
      assert !IsOctet(t[..2]) && !IsOctet(t[..3]);
    }
    assert !MatchesOctets(s[3..], 3) by {
      var t := s[3..];
      assert t == ".1.1.1";
      assert !IsOctet(t[..1]) && !IsOctet(t[..2]) && !IsOctet(t[..3]);
    }
  }
}
