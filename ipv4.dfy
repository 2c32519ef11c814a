/**
 * `AdministradorRedes.es_direccion_ipv4`: a `re.match` of the pattern
 *   ((25[0-5]|2[0-4][0-9]|[01]?[0-9][0-9]?)\.){3}(25[0-5]|2[0-4][0-9]|[01]?[0-9][0-9]?)$
 * The pattern is written out below alternative by alternative; the
 * lemmas relate it to the plain reading "four dot-separated decimal
 * numbers of one to three digits, each at most 255".
 */
module Ipv4 {
  import opened Text

  predicate IsDigit(ch: char)
  {
    '0' <= ch <= '9'
  }

  /** `[0-9][0-9]?` */
  predicate DigitThenOptionalDigit(g: string)
  {
    (|g| == 1 && IsDigit(g[0])) || (|g| == 2 && IsDigit(g[0]) && IsDigit(g[1]))
  }

  /** One octet group: `25[0-5]|2[0-4][0-9]|[01]?[0-9][0-9]?`. */
  predicate OctetPattern(g: string)
  {
    || (|g| == 3 && g[0] == '2' && g[1] == '5' && '0' <= g[2] <= '5')
    || (|g| == 3 && g[0] == '2' && '0' <= g[1] <= '4' && IsDigit(g[2]))
    || (|g| >= 1 && g[0] in "01" && DigitThenOptionalDigit(g[1..]))
    || DigitThenOptionalDigit(g)
  }

  /** `(octet\.){n}octet`, matched against the whole of `s`. */
  predicate GroupsPattern(s: string, n: nat)
  {
    if n == 0 then OctetPattern(s)
    else exists i | 0 <= i < |s| :: s[i] == '.' && OctetPattern(s[..i]) && GroupsPattern(s[i + 1..], n - 1)
  }

  /** `es_direccion_ipv4`: `re.match` anchors at the start, and Python's `$`
      matches at the end of the string or just before a final newline. */
  predicate EsDireccionIpv4(direccion: string)
  {
    || GroupsPattern(direccion, 3)
    || (|direccion| > 0 && direccion[|direccion| - 1] == '\n'
        && GroupsPattern(direccion[..|direccion| - 1], 3))
  }

  // ----- The plain reading -----

  function DigitValue(ch: char): nat
    requires IsDigit(ch)
  {
    ch as int - '0' as int
  }

  /** The decimal value of a string of digits. */
  function Value(g: string): nat
    requires forall ch <- g :: IsDigit(ch)
  {
    if g == [] then 0 else 10 * Value(g[..|g| - 1]) + DigitValue(g[|g| - 1])
  }

  /** One to three ASCII digits, value at most 255 (leading zeros allowed). */
  predicate IsOctet(g: string)
  {
    1 <= |g| <= 3 && (forall ch <- g :: IsDigit(ch)) && Value(g) <= 255
  }

  /** Four dot-separated octets and nothing else. */
  predicate IsDottedQuad(s: string)
  {
    var parts := Split(s, '.');
    |parts| == 4 && forall p <- parts :: IsOctet(p)
  }

  // ----- The pattern is the plain reading -----

  lemma ValueOfShort(g: string)
    requires 1 <= |g| <= 3 && forall ch <- g :: IsDigit(ch)
    ensures |g| == 1 ==> Value(g) == DigitValue(g[0])
    ensures |g| == 2 ==> Value(g) == 10 * DigitValue(g[0]) + DigitValue(g[1])
    ensures |g| == 3 ==> Value(g) == 100 * DigitValue(g[0]) + 10 * DigitValue(g[1]) + DigitValue(g[2])
  {
    assert g[..1][..0] == [] && g[..0] == [];
    assert Value(g[..1]) == DigitValue(g[0]);
    if |g| >= 2 {
      assert g[..2][..1] == g[..1];
      assert Value(g[..2]) == 10 * DigitValue(g[0]) + DigitValue(g[1]);
    }
    if |g| == 3 {
      assert g[..3] == g;
    }
  }

  lemma OctetPatternIsOctet(g: string)
    ensures OctetPattern(g) <==> IsOctet(g)
  {
    if 1 <= |g| <= 3 && forall ch <- g :: IsDigit(ch) {
      ValueOfShort(g);
      if |g| == 2 {
        assert g[1..] == [g[1]];
      } else if |g| == 3 {
        assert g[1..] == [g[1], g[2]];
      }
    }
  }

  /** Splitting at a first dot peels off the part before it. */
  lemma SplitAtDot(s: string, i: nat)
    requires i < |s| && s[i] == '.' && '.' !in s[..i]
    ensures Split(s, '.') == [s[..i]] + Split(s[i + 1..], '.')
  {
    assert s == s[..i] + ['.'] + s[i + 1..];
    SplitPrefix(s[..i], s[i + 1..], '.');
  }

  /** An octet has no dot in it. */
  lemma OctetHasNoDot(g: string)
    requires IsOctet(g)
    ensures '.' !in g
  {
  }

  /** A match of the pattern splits into octets at the dots. */
  lemma {:induction false} GroupsPatternSplits(s: string, n: nat)
    requires GroupsPattern(s, n)
    ensures |Split(s, '.')| == n + 1 && forall p <- Split(s, '.') :: IsOctet(p)
  {
    if n == 0 {
      OctetPatternIsOctet(s);
      OctetHasNoDot(s);
      SplitNoSep(s, '.');
    } else {
      var i :| 0 <= i < |s| && s[i] == '.' && OctetPattern(s[..i]) && GroupsPattern(s[i + 1..], n - 1);
      OctetPatternIsOctet(s[..i]);
      OctetHasNoDot(s[..i]);
      GroupsPatternSplits(s[i + 1..], n - 1);
      SplitAtDot(s, i);
      OctetsCons(s[..i], Split(s[i + 1..], '.'));
    }
  }

  /** An octet in front of octets. */
  lemma OctetsCons(g: string, rest: seq<string>)
    requires IsOctet(g) && forall p <- rest :: IsOctet(p)
    ensures forall p <- [g] + rest :: IsOctet(p)
  {
  }

  /** Octets joined by dots match the pattern. */
  lemma {:induction false} SplitMatchesGroups(s: string, n: nat)
    requires |Split(s, '.')| == n + 1 && forall p <- Split(s, '.') :: IsOctet(p)
    ensures GroupsPattern(s, n)
  {
    var parts := Split(s, '.');
    if n == 0 {
      JoinSplit(s, '.');
      assert s == parts[0];
      OctetPatternIsOctet(s);
    } else {
      if '.' !in s {
        SplitNoSep(s, '.');
        assert false;
      }
      var i := FirstDot(s);
      SplitAtDot(s, i);
      var rest := Split(s[i + 1..], '.');
      assert parts[0] == s[..i] && parts[1..] == rest;
      OctetPatternIsOctet(s[..i]);
      forall p <- rest ensures IsOctet(p) {
        assert p in parts;
      }
      SplitMatchesGroups(s[i + 1..], n - 1);
    }
  }

  /** Position of the first dot of a string that has one. */
  function FirstDot(s: string): (i: nat)
    requires '.' in s
    ensures i < |s| && s[i] == '.' && '.' !in s[..i]
  {
    if s[0] == '.' then 0
    else
      var j := FirstDot(s[1..]);
      assert s[..j + 1] == [s[0]] + s[1..][..j];
      j + 1
  }

  /** What `es_direccion_ipv4` accepts: a dotted quad, optionally followed by
      a single newline (the `$` quirk). */
  lemma EsDireccionIpv4IsDottedQuad(direccion: string)
    ensures EsDireccionIpv4(direccion) <==>
            || IsDottedQuad(direccion)
            || (|direccion| > 0 && direccion[|direccion| - 1] == '\n'
                && IsDottedQuad(direccion[..|direccion| - 1]))
  {
    if GroupsPattern(direccion, 3) {
      GroupsPatternSplits(direccion, 3);
    }
    if IsDottedQuad(direccion) {
      SplitMatchesGroups(direccion, 3);
    }
    if |direccion| > 0 {
      var t := direccion[..|direccion| - 1];
      if GroupsPattern(t, 3) {
        GroupsPatternSplits(t, 3);
      }
      if IsDottedQuad(t) {
        SplitMatchesGroups(t, 3);
      }
    }
  }

  // ----- Examples -----

  /** A private address is accepted. */
  lemma AcceptsPrivateAddress()
    ensures EsDireccionIpv4("192.168.1.1")
  {
    AcceptsQuad("192", "168", "1", "1", "192.168.1.1");
  }

  /** The lowest octets are accepted. */
  lemma AcceptsAllZeros()
    ensures EsDireccionIpv4("0.0.0.0")
  {
    AcceptsQuad("0", "0", "0", "0", "0.0.0.0");
  }

  /** The highest octets are accepted. */
  lemma AcceptsAllOnes()
    ensures EsDireccionIpv4("255.255.255.255")
  {
    AcceptsQuad("255", "255", "255", "255", "255.255.255.255");
  }

  /** Leading zeros are accepted (`[01]?[0-9][0-9]?`). */
  lemma AcceptsLeadingZeros()
    ensures EsDireccionIpv4("001.02.3.4")
  {
    AcceptsQuad("001", "02", "3", "4", "001.02.3.4");
  }

  /** `$` also matches before a final newline, so one trailing newline is accepted. */
  lemma AcceptsTrailingNewline()
    ensures EsDireccionIpv4("1.2.3.4\n")
  {
    var s := "1.2.3.4\n";
    AcceptsQuad("1", "2", "3", "4", s[..7]);
  }

  /** Four octets written out with dots between them are accepted. */
  lemma AcceptsQuad(a: string, b: string, c: string, d: string, s: string)
    requires OctetPattern(a) && OctetPattern(b) && OctetPattern(c) && OctetPattern(d)
    requires s == a + "." + (b + "." + (c + "." + d))
    ensures EsDireccionIpv4(s)
  {
    QuadOf(a, b, c, d);
  }

  /** One more octet and a dot in front of a match of `n - 1` groups. */
  lemma GroupsStep(a: string, t: string, n: nat)
    requires n >= 1 && OctetPattern(a) && GroupsPattern(t, n - 1)
    ensures GroupsPattern(a + "." + t, n)
  {
    var s := a + "." + t;
    assert s[|a|] == '.' && s[..|a|] == a && s[|a| + 1..] == t;
  }

  /** Four octets joined with dots form a match of the whole pattern. */
  lemma QuadOf(a: string, b: string, c: string, d: string)
    requires OctetPattern(a) && OctetPattern(b) && OctetPattern(c) && OctetPattern(d)
    ensures GroupsPattern(a + "." + (b + "." + (c + "." + d)), 3)
  {
    GroupsStep(c, d, 1);
    GroupsStep(b, c + "." + d, 2);
    GroupsStep(a, b + "." + (c + "." + d), 3);
  }

  /** An octet over 255 is rejected. */
  lemma RejectsOctetOver255()
    ensures !EsDireccionIpv4("256.1.1.1")
  {
    assert !IsOctet("256") by {
      ValueOfShort("256");
    }
    SplitOf(["256", "1", "1", "1"], "256.1.1.1");
    assert "256.1.1.1"[8] != '\n';
    EsDireccionIpv4IsDottedQuad("256.1.1.1");
  }

  /** Three groups are rejected. */
  lemma RejectsThreeGroups()
    ensures !EsDireccionIpv4("1.2.3")
  {
    SplitOf(["1", "2", "3"], "1.2.3");
    assert "1.2.3"[4] != '\n';
    EsDireccionIpv4IsDottedQuad("1.2.3");
  }

  /** Five groups are rejected. */
  lemma RejectsFiveGroups()
    ensures !EsDireccionIpv4("192.168.1.1.1")
  {
    SplitOf(["192", "168", "1", "1", "1"], "192.168.1.1.1");
    assert "192.168.1.1.1"[12] != '\n';
    EsDireccionIpv4IsDottedQuad("192.168.1.1.1");
  }

  /** Letters are rejected. */
  lemma RejectsLetters()
    ensures !EsDireccionIpv4("abc.def.1.1")
  {
    assert !IsOctet("abc") by {
      assert !IsDigit("abc"[0]);
    }
    SplitOf(["abc", "def", "1", "1"], "abc.def.1.1");
    assert "abc.def.1.1"[10] != '\n';
    EsDireccionIpv4IsDottedQuad("abc.def.1.1");
  }

  /** The pieces of a string written as dot-free pieces joined by dots. */
  lemma SplitOf(parts: seq<string>, s: string)
    requires |parts| >= 1 && forall p <- parts :: '.' !in p
    requires s == Join(parts, ".")
    ensures Split(s, '.') == parts
  {
    SplitJoin(parts, '.');
  }
}
