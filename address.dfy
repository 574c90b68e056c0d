/** mua/Address.java: an e-mail address of display name, local part and domain. */
module Addresses {
  import opened Results
  import opened Strings
  import opened Encoding

  /** Built only through Make, so local and domain always pass IsValidPart. */
  datatype Address = Address(display: string, local: string, domain: string)

  /** One character of `[\w\d.!$%&'*+/=?^_`{|}~-]`: an ASCII letter, digit, or listed mark. */
  predicate IsAddressChar(ch: char) {
    || ('a' <= ch <= 'z')
    || ('A' <= ch <= 'Z')
    || ('0' <= ch <= '9')
    || ch in "_.!$%&'*+/=?^`{|}~-"
  }

  /** AddressEncoding.isValidAddressPart: a non-empty run of address characters. */
  predicate IsValidPart(s: string) {
    |s| > 0 && forall i :: 0 <= i < |s| ==> IsAddressChar(s[i])
  }

  lemma ValidPartIsAscii(s: string)
    requires IsValidPart(s)
    ensures IsAscii(s)
  {
  }

  /** The representation invariant of Address. */
  predicate Valid(a: Address) {
    IsValidPart(a.local) && IsValidPart(a.domain)
  }

  /** The private constructor: rejects an invalid local part, then an invalid domain. */
  function Make(display: string, local: string, domain: string): (r: Result<Address>)
    ensures r.Ok? <==> IsValidPart(local) && IsValidPart(domain)
    ensures r.Ok? ==> r.value == Address(display, local, domain) && Valid(r.value)
    ensures r.Err? ==> r.error == IllegalArgument
  {
    if !IsValidPart(local) then Err(IllegalArgument)
    else if !IsValidPart(domain) then Err(IllegalArgument)
    else Ok(Address(display, local, domain))
  }

  /** Address.from(List): exactly three parts, in the order display, local, domain. */
  function FromParts(parts: seq<string>): (r: Result<Address>)
    ensures r.Ok? <==> |parts| == 3 && IsValidPart(parts[1]) && IsValidPart(parts[2])
    ensures r.Ok? ==> r.value == Address(parts[0], parts[1], parts[2]) && Valid(r.value)
    ensures r.Err? ==> r.error == IllegalArgument
  {
    if |parts| != 3 then Err(IllegalArgument)
    else Make(parts[0], parts[1], parts[2])
  }

  /**
   * Address.from(String): non-ASCII text is rejected; otherwise the address is
   * built from the first decoded address only, from its first three parts.
   */
  function FromText(c: Codec, text: string): (r: Result<Address>)
    ensures !IsAscii(text) ==> r == Err(IllegalArgument)
    ensures r.Ok? ==>
              && IsAscii(text)
              && c.decodeAddresses(text).Some?
              && |c.decodeAddresses(text).value| > 0
              && var first := c.decodeAddresses(text).value[0];
              && |first| >= 3
              && r.value == Address(first[0], first[1], first[2])
              && Valid(r.value)
    ensures IsAscii(text) && c.decodeAddresses(text).None? ==> r.Err?
    ensures IsAscii(text) && c.decodeAddresses(text).Some? ==>
              var ds := c.decodeAddresses(text).value;
              && (|ds| == 0 || |ds[0]| < 3 ==> r == Err(IndexOutOfBounds))
              && (|ds| > 0 && |ds[0]| >= 3 ==> r == Make(ds[0][0], ds[0][1], ds[0][2]))
  {
    if !IsAscii(text) then Err(IllegalArgument)
    else match c.decodeAddresses(text)
      case None => Err(IllegalArgument)
      case Some(addresses) =>
        if |addresses| == 0 then Err(IndexOutOfBounds)
        else
          var parts := addresses[0];
          if |parts| < 3 then Err(IndexOutOfBounds)
          else Make(parts[0], parts[1], parts[2])
  }

  /** equals: local and domain only; the display name is ignored. */
  predicate Equal(a: Address, b: Address) {
    a.local == b.local && a.domain == b.domain
  }

  /** compareTo: local part first, the domain on a tie. */
  function Compare(a: Address, b: Address): (r: int)
    ensures r == 0 <==> Equal(a, b)
  {
    var byLocal := Strings.Compare(a.local, b.local);
    if byLocal == 0 then Strings.Compare(a.domain, b.domain) else byLocal
  }

  /** Compare is a total preorder whose ties are exactly Equal. */
  lemma CompareAntisymmetric(a: Address, b: Address)
    ensures Compare(a, b) == -Compare(b, a)
  {
    Strings.CompareAntisymmetric(a.local, b.local);
    Strings.CompareAntisymmetric(a.domain, b.domain);
  }

  lemma CompareTransitive(a: Address, b: Address, c: Address)
    requires Compare(a, b) <= 0 && Compare(b, c) <= 0
    ensures Compare(a, c) <= 0
  {
    Strings.CompareAntisymmetric(a.local, b.local);
    Strings.CompareAntisymmetric(b.local, c.local);
    Strings.CompareAntisymmetric(a.local, c.local);
    if Strings.Compare(a.local, b.local) <= 0 && Strings.Compare(b.local, c.local) <= 0 {
      Strings.CompareTransitive(a.local, b.local, c.local);
    }
    if a.local == b.local && b.local == c.local {
      Strings.CompareTransitive(a.domain, b.domain, c.domain);
    }
  }

  /** Equal addresses compare alike against any third one. */
  lemma CompareRespectsEqual(a: Address, b: Address, c: Address)
    requires Equal(a, b)
    ensures Compare(a, c) == Compare(b, c)
  {
  }

  /** hashCode: both parts' String hashes, in `int` arithmetic. */
  function HashCode(a: Address): int {
    Wrap32(Hash(a.domain) * 31 + Wrap32(Hash(a.local) * 31))
  }

  /** hashCode agrees with equals. */
  lemma HashAgreesWithEqual(a: Address, b: Address)
    requires Equal(a, b)
    ensures HashCode(a) == HashCode(b)
  {
  }

  // ---- Rendering (toString) ----

  /** Position `i` holds a space followed by a non-space. */
  predicate IsSeparatorAt(d: string, i: nat)
    requires i < |d|
  {
    d[i] == ' ' && i + 1 < |d| && d[i + 1] != ' '
  }

  /** How many of the first `n` positions are separators: the loop's `count`. */
  function Separators(d: string, n: nat): nat
    requires n <= |d|
  {
    if n == 0 then 0
    else Separators(d, n - 1) + (if IsSeparatorAt(d, n - 1) then 1 else 0)
  }

  /** The quoting heuristic: at least two separators. */
  predicate NeedsQuotes(d: string) {
    Separators(d, |d|) >= 2
  }

  /** The display name as rendered: in double quotes when the heuristic says so. */
  function Name(d: string): string {
    if NeedsQuotes(d) then "\"" + d + "\"" else d
  }

  /**
   * toString as a value. A display name ending in a space makes the loop read
   * one character past the end: StringIndexOutOfBoundsException.
   */
  function Text(a: Address): Result<string> {
    if a.display == [] then Ok(a.local + "@" + a.domain)
    else if a.display[|a.display| - 1] == ' ' then Err(IndexOutOfBounds)
    else Ok(Name(a.display) + " <" + a.local + "@" + a.domain + ">")
  }

  lemma {:induction false} OneSeparator(d: string, n: nat)
    requires n <= |d|
    ensures Separators(d, n) >= 1 <==> exists i :: 0 <= i < n && IsSeparatorAt(d, i)
  {
    if n > 0 {
      OneSeparator(d, n - 1);
    }
  }

  lemma {:induction false} TwoSeparators(d: string, n: nat)
    requires n <= |d|
    ensures Separators(d, n) >= 2 <==>
            exists i, j :: 0 <= i < j < n && IsSeparatorAt(d, i) && IsSeparatorAt(d, j)
  {
    if n > 0 {
      TwoSeparators(d, n - 1);
      OneSeparator(d, n - 1);
      if exists i, j :: 0 <= i < j < n && IsSeparatorAt(d, i) && IsSeparatorAt(d, j) {
        var i, j :| 0 <= i < j < n && IsSeparatorAt(d, i) && IsSeparatorAt(d, j);
        if j < n - 1 {
          assert Separators(d, n - 1) >= 2;
        } else {
          assert Separators(d, n - 1) >= 1;
        }
      }
    }
  }

  /** The display name is quoted iff it holds two spaces that are each followed by a non-space. */
  lemma QuotedIffTwoSeparators(d: string)
    ensures NeedsQuotes(d) <==>
            exists i, j :: 0 <= i < j < |d| && IsSeparatorAt(d, i) && IsSeparatorAt(d, j)
  {
    TwoSeparators(d, |d|);
  }

  /**
   * The three shapes of a rendered address: `local@domain` without a display
   * name, a failure when the name ends in a space, and otherwise the name,
   * quoted iff it has two separators, followed by ` <local@domain>`.
   */
  lemma TextShape(a: Address)
    ensures a.display == [] ==> Text(a) == Ok(a.local + "@" + a.domain)
    ensures a.display != [] && a.display[|a.display| - 1] == ' ' ==> Text(a) == Err(IndexOutOfBounds)
    ensures a.display != [] && a.display[|a.display| - 1] != ' ' ==>
              var twoSeparators := exists i, j :: 0 <= i < j < |a.display| &&
                                     IsSeparatorAt(a.display, i) && IsSeparatorAt(a.display, j);
              Text(a) == Ok((if twoSeparators then "\"" + a.display + "\"" else a.display)
                            + " <" + a.local + "@" + a.domain + ">")
  {
    QuotedIffTwoSeparators(a.display);
  }

  /** A valid address with an ASCII display name renders to ASCII. */
  lemma TextIsAscii(a: Address)
    requires Valid(a) && IsAscii(a.display) && Text(a).Ok?
    ensures IsAscii(Text(a).value)
  {
    ValidPartIsAscii(a.local);
    ValidPartIsAscii(a.domain);
    AsciiConcat(a.local, "@");
    AsciiConcat(a.local + "@", a.domain);
    if a.display != [] {
      AsciiConcat("\"", a.display);
      AsciiConcat("\"" + a.display, "\"");
      var name := Name(a.display);
      AsciiConcat(name, " <");
      AsciiConcat(name + " <", a.local);
      AsciiConcat(name + " <" + a.local, "@");
      AsciiConcat(name + " <" + a.local + "@", a.domain);
      AsciiConcat(name + " <" + a.local + "@" + a.domain, ">");
    }
  }

  /** toString: the counting loop over the display name. */
  method Render(a: Address) returns (r: Result<string>)
    ensures r == Text(a)
  {
    if a.display == [] {
      return Ok(a.local + "@" + a.domain);
    }
    var d := a.display;
    var count := 0;
    var i := 0;
    while i < |d|
      invariant 0 <= i <= |d|
      invariant count == Separators(d, i)
      invariant 0 < i ==> d[i - 1] == ' ' ==> i < |d|
    {
      if d[i] == ' ' {
        if i + 1 == |d| {
          return Err(IndexOutOfBounds);
        }
        if d[i + 1] != ' ' && i != |d| - 1 {
          count := count + 1;
        }
      }
      i := i + 1;
    }
    var name := if count >= 2 then "\"" + d + "\"" else d;
    r := Ok(name + " <" + a.local + "@" + a.domain + ">");
  }
}
