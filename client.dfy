/** `Client::validate_address` (client/src/client.rs:12-32). */
module Client {
  import opened Util

  /** `str::split` with a one-character pattern: every occurrence separates two
      fields, empty fields included, so there is always at least one field. */
  function Split(s: string, sep: char): (fields: seq<string>)
    ensures |fields| >= 1
  {
    if s == [] then [[]]
    else
      var rest := Split(s[1..], sep);
      if s[0] == sep then [[]] + rest
      else [[s[0]] + rest[0]] + rest[1..]
  }

  /** Fields joined with the separator between them. */
  function Join(fields: seq<string>, sep: char): string
    requires |fields| >= 1
  {
    if |fields| == 1 then fields[0] else fields[0] + [sep] + Join(fields[1..], sep)
  }

  /** The fields hold no separator and joining them gives the input back. */
  lemma {:induction false} SplitJoin(s: string, sep: char)
    ensures Join(Split(s, sep), sep) == s
    ensures forall n :: 0 <= n < |Split(s, sep)| ==> sep !in Split(s, sep)[n]
  {
    if s != [] {
      SplitJoin(s[1..], sep);
      var rest := Split(s[1..], sep);
      if s[0] == sep {
        assert Split(s, sep) == [[]] + rest;
        assert Join(Split(s, sep), sep) == [] + [sep] + Join(rest, sep);
      } else {
        var fields := Split(s, sep);
        assert fields == [[s[0]] + rest[0]] + rest[1..];
        if |rest| == 1 {
          assert Join(fields, sep) == [s[0]] + rest[0];
        } else {
          assert fields[1..] == rest[1..];
          assert Join(fields, sep) == [s[0]] + rest[0] + [sep] + Join(rest[1..], sep);
          assert Join(rest, sep) == rest[0] + [sep] + Join(rest[1..], sep);
        }
        assert s == [s[0]] + s[1..];
      }
    }
  }

  /** Splitting a separator-free text gives it back as the only field. */
  lemma {:induction false} SplitNoSeparator(s: string, sep: char)
    requires sep !in s
    ensures Split(s, sep) == [s]
  {
    if s != [] {
      SplitNoSeparator(s[1..], sep);
      assert [s[0]] + s[1..] == s;
    }
  }

  /** Splitting `a + [sep] + b` where `a` holds no separator. */
  lemma {:induction false} SplitAtFirst(a: string, b: string, sep: char)
    requires sep !in a
    ensures Split(a + [sep] + b, sep) == [a] + Split(b, sep)
  {
    if a == [] {
      assert [] + [sep] + b == [sep] + b;
      assert ([sep] + b)[1..] == b;
    } else {
      assert (a + [sep] + b)[1..] == a[1..] + [sep] + b;
      SplitAtFirst(a[1..], b, sep);
      assert [a[0]] + a[1..] == a;
    }
  }

  predicate IsDigit(c: char) {
    '0' <= c <= '9'
  }

  predicate AllDigits(s: string) {
    forall k :: 0 <= k < |s| ==> IsDigit(s[k])
  }

  /** Value of a string of decimal digits. */
  function DecimalValue(digits: string): nat
    requires AllDigits(digits)
  {
    if digits == [] then 0
    else
      assert IsDigit(digits[|digits| - 1]);
      DecimalValue(digits[..|digits| - 1]) * 10 + (digits[|digits| - 1] as int - '0' as int)
  }

  /** `str::parse::<uN>()` for an unsigned type whose largest value is `max`:
      an optional '+', then at least one ASCII digit, with a value in range. */
  function ParseUnsigned(s: string, max: nat): (r: Option<nat>)
    ensures r.Some? ==> r.value <= max
  {
    if s == [] then None
    else
      var digits := if s[0] == '+' then s[1..] else s;
      if digits == [] || !AllDigits(digits) then None
      else if DecimalValue(digits) <= max then Some(DecimalValue(digits))
      else None
  }

  /** The shortest decimal rendering of `n`. */
  function Decimal(n: nat): (d: string)
    ensures d != [] && AllDigits(d)
  {
    if n < 10 then [('0' as int + n) as char]
    else Decimal(n / 10) + [('0' as int + n % 10) as char]
  }

  lemma {:induction false} DecimalValueOfDecimal(n: nat)
    ensures DecimalValue(Decimal(n)) == n
  {
    if n >= 10 {
      DecimalValueOfDecimal(n / 10);
      var d := Decimal(n);
      assert d[..|d| - 1] == Decimal(n / 10);
    }
  }

  /** Parsing the decimal rendering of `n` gives `n` back exactly when it fits. */
  lemma ParseDecimal(n: nat, max: nat)
    ensures ParseUnsigned(Decimal(n), max) == if n <= max then Some(n) else None
    ensures ParseUnsigned("+" + Decimal(n), max) == ParseUnsigned(Decimal(n), max)
  {
    DecimalValueOfDecimal(n);
    var d := Decimal(n);
    assert d[0] != '+';
    assert ("+" + d)[1..] == d;
  }

  const MaxU8: nat := 255
  const MaxU16: nat := 65535

  /** `.map(|n| n.parse::<u8>()).flatten().count()`: the fields that parse. */
  function CountOctets(fields: seq<string>): (n: nat)
    ensures n <= |fields|
  {
    if fields == [] then 0
    else (if ParseUnsigned(fields[0], MaxU8).Some? then 1 else 0) + CountOctets(fields[1..])
  }

  /** `validate_address`. */
  function ValidateAddress(address: string): bool {
    var parts := Split(address, ':');
    if |parts| != 2 then false
    else
      var host, port := parts[0], parts[1];
      if port == [] then false
      else if CountOctets(Split(host, '.')) != 4 then false
      else ParseUnsigned(port, MaxU16).Some?
  }

  /** An address is accepted exactly when it is `host:port` with one ':', a
      non-empty port that parses as a u16, and a host with exactly four
      '.'-fields that parse as u8 (other fields are ignored). */
  lemma ValidateAddressIff(host: string, port: string)
    requires ':' !in host && ':' !in port
    ensures ValidateAddress(host + ":" + port) <==>
      port != [] && CountOctets(Split(host, '.')) == 4 && ParseUnsigned(port, MaxU16).Some?
  {
    SplitAtFirst(host, port, ':');
    SplitNoSeparator(port, ':');
  }

  /** Every accepted address has that shape. */
  lemma ValidAddressShape(address: string)
    requires ValidateAddress(address)
    ensures exists host, port :: ':' !in host && ':' !in port && address == host + ":" + port
  {
    SplitJoin(address, ':');
    var parts := Split(address, ':');
    assert parts[1..] == [parts[1]];
    assert address == parts[0] + [':'] + parts[1];
    assert ':' !in parts[0] && ':' !in parts[1];
  }

  /** Splitting what `Join` built from separator-free fields gives the fields. */
  lemma {:induction false} SplitOfJoin(fields: seq<string>, sep: char)
    requires |fields| >= 1
    requires forall n :: 0 <= n < |fields| ==> sep !in fields[n]
    ensures Split(Join(fields, sep), sep) == fields
  {
    if |fields| == 1 {
      SplitNoSeparator(fields[0], sep);
    } else {
      SplitOfJoin(fields[1..], sep);
      SplitAtFirst(fields[0], Join(fields[1..], sep), sep);
      assert fields == [fields[0]] + fields[1..];
    }
  }

  lemma DecimalHasNoPunctuation(n: nat)
    ensures '.' !in Decimal(n) && ':' !in Decimal(n)
  {
    var d := Decimal(n);
    forall k | 0 <= k < |d| ensures d[k] != '.' && d[k] != ':' {
      assert IsDigit(d[k]);
    }
  }

  lemma {:induction false} CountOctetsAppend(fields: seq<string>, more: seq<string>)
    ensures CountOctets(fields + more) == CountOctets(fields) + CountOctets(more)
  {
    if fields != [] {
      assert (fields + more)[1..] == fields[1..] + more;
      CountOctetsAppend(fields[1..], more);
    } else {
      assert fields + more == more;
    }
  }

  /** Every field parses as a byte, so all of them count. */
  lemma {:induction false} CountAllOctets(fields: seq<string>)
    requires forall n :: 0 <= n < |fields| ==> ParseUnsigned(fields[n], MaxU8).Some?
    ensures CountOctets(fields) == |fields|
  {
    if fields != [] {
      CountAllOctets(fields[1..]);
    }
  }

  /** A character in no field, other than the separator, is not in the join. */
  lemma {:induction false} JoinAvoids(fields: seq<string>, sep: char, c: char)
    requires |fields| >= 1 && c != sep
    requires forall n :: 0 <= n < |fields| ==> c !in fields[n]
    ensures c !in Join(fields, sep)
  {
    if |fields| > 1 {
      JoinAvoids(fields[1..], sep, c);
    }
  }

  /** Text starting with a character other than '+' or a digit is no number. */
  lemma ParseRejectsLeading(s: string, max: nat)
    requires s != [] && s[0] != '+' && !IsDigit(s[0])
    ensures ParseUnsigned(s, max).None?
  {
  }

  /** The decimal fields of a host, joined by '.'. */
  function DottedHost(octets: seq<nat>): (host: string)
    requires |octets| >= 1
    ensures ':' !in host
    ensures Split(host, '.') == seq(|octets|, n requires 0 <= n < |octets| => Decimal(octets[n]))
  {
    var fields := seq(|octets|, n requires 0 <= n < |octets| => Decimal(octets[n]));
    forall n | 0 <= n < |fields| ensures '.' !in fields[n] && ':' !in fields[n] {
      DecimalHasNoPunctuation(octets[n]);
    }
    SplitOfJoin(fields, '.');
    JoinAvoids(fields, '.', ':');
    Join(fields, '.')
  }

  /** A '.'-separated list of byte values with a port is accepted exactly
      when there are four of them and the port is within the u16 range. */
  lemma DottedHostAccepted(octets: seq<nat>, port: nat)
    requires |octets| >= 1
    requires forall n :: 0 <= n < |octets| ==> octets[n] <= MaxU8
    ensures ValidateAddress(DottedHost(octets) + ":" + Decimal(port)) <==>
      |octets| == 4 && port <= MaxU16
  {
    var fields := Split(DottedHost(octets), '.');
    forall n | 0 <= n < |fields| ensures ParseUnsigned(fields[n], MaxU8).Some? {
      ParseDecimal(octets[n], MaxU8);
    }
    CountAllOctets(fields);
    DecimalHasNoPunctuation(port);
    ParseDecimal(port, MaxU16);
    ValidateAddressIff(DottedHost(octets), Decimal(port));
  }

  /** A host field that is no byte is ignored: four byte fields and one
      more still pass. */
  lemma ExtraHostFieldIgnored(octets: seq<nat>, junk: string, port: nat)
    requires |octets| == 4
    requires forall n :: 0 <= n < 4 ==> octets[n] <= MaxU8
    requires '.' !in junk && ':' !in junk && ParseUnsigned(junk, MaxU8).None?
    ensures ValidateAddress(DottedHost(octets) + "." + junk + ":" + Decimal(port)) <==> port <= MaxU16
  {
    var quad := Split(DottedHost(octets), '.');
    var fields := quad + [junk];
    forall n | 0 <= n < 4 ensures ParseUnsigned(quad[n], MaxU8).Some? {
      ParseDecimal(octets[n], MaxU8);
    }
    CountAllOctets(quad);
    CountOctetsAppend(quad, [junk]);
    assert CountOctets([junk]) == 0;
    var host := DottedHost(octets) + "." + junk;
    assert host == DottedHost(octets) + ['.'] + junk;
    SplitJoin(DottedHost(octets), '.');
    SplitNoSeparator(junk, '.');
    forall n | 0 <= n < |fields| ensures '.' !in fields[n] {
      SplitJoin(DottedHost(octets), '.');
    }
    assert Join(fields, '.') == host by {
      JoinAppend(quad, junk, '.');
    }
    SplitOfJoin(fields, '.');
    DecimalHasNoPunctuation(port);
    ParseDecimal(port, MaxU16);
    ValidateAddressIff(host, Decimal(port));
  }

  /** Joining with one more field appends the separator and that field. */
  lemma {:induction false} JoinAppend(fields: seq<string>, last: string, sep: char)
    requires |fields| >= 1
    ensures Join(fields + [last], sep) == Join(fields, sep) + [sep] + last
  {
    if |fields| > 1 {
      assert (fields + [last])[1..] == fields[1..] + [last];
      JoinAppend(fields[1..], last, sep);
    } else {
      assert (fields + [last])[1..] == [last];
    }
  }

  /** How many of `values` fit in a byte. */
  function CountBytes(values: seq<nat>): (n: nat)
    ensures n <= |values|
  {
    if values == [] then 0 else (if values[0] <= MaxU8 then 1 else 0) + CountBytes(values[1..])
  }

  /** Fields that are decimal renderings count exactly the values that fit in a byte. */
  lemma {:induction false} CountDecimals(fields: seq<string>, values: seq<nat>)
    requires |fields| == |values|
    requires forall n :: 0 <= n < |values| ==> fields[n] == Decimal(values[n])
    ensures CountOctets(fields) == CountBytes(values)
  {
    if fields != [] {
      ParseDecimal(values[0], MaxU8);
      CountDecimals(fields[1..], values[1..]);
    }
  }

  /** The host and port of a literal address, taken apart without unfolding
      `Split` on the literal. */
  lemma LiteralAddress(address: string, octets: seq<string>, values: seq<nat>, port: nat)
    requires |octets| == |values| >= 1
    requires forall n :: 0 <= n < |values| ==> octets[n] == Decimal(values[n])
    requires address == Join(octets, '.') + ":" + Decimal(port)
    ensures ValidateAddress(address) <==> CountBytes(values) == 4 && port <= MaxU16
  {
    forall n | 0 <= n < |octets| ensures '.' !in octets[n] && ':' !in octets[n] {
      DecimalHasNoPunctuation(values[n]);
    }
    SplitOfJoin(octets, '.');
    JoinAvoids(octets, '.', ':');
    CountDecimals(octets, values);
    DecimalHasNoPunctuation(port);
    ParseDecimal(port, MaxU16);
    ValidateAddressIff(Join(octets, '.'), Decimal(port));
  }

  lemma SmallDecimals()
    ensures Decimal(0) == "0" && Decimal(1) == "1" && Decimal(127) == "127"
    ensures Decimal(255) == "255" && Decimal(256) == "256"
  {
  }

  /** The decimal texts of the ports the tests use. */
  lemma PortDecimals()
    ensures Decimal(1111) == "1111" && Decimal(2222) == "2222" && Decimal(8080) == "8080"
    ensures Decimal(65535) == "65535" && Decimal(65536) == "65536"
  {
  }

  /** The addresses `validate_address` is meant to accept and refuse. */
  lemma LoopbackAccepted(address: string)
    requires address == "127.0.0.1:8080"
    ensures ValidateAddress(address)
  {
    var octets := ["127", "0", "0", "1"];
    SmallDecimals();
    PortDecimals();
    assert address == Join(octets, '.') + ":" + Decimal(8080);
    LiteralAddress(address, octets, [127, 0, 0, 1], 8080);
  }

  lemma BroadcastAddressAccepted(address: string)
    requires address == "255.255.255.255:1111"
    ensures ValidateAddress(address)
  {
    var octets := ["255", "255", "255", "255"];
    SmallDecimals();
    PortDecimals();
    assert address == Join(octets, '.') + ":" + Decimal(1111);
    LiteralAddress(address, octets, [255, 255, 255, 255], 1111);
  }

  lemma LargestPortAccepted(address: string)
    requires address == "0.0.0.0:65535"
    ensures ValidateAddress(address)
  {
    var octets := ["0", "0", "0", "0"];
    SmallDecimals();
    PortDecimals();
    assert address == Join(octets, '.') + ":" + Decimal(65535);
    LiteralAddress(address, octets, [0, 0, 0, 0], 65535);
  }

  lemma OctetOutOfRangeRefused(address: string)
    requires address == "255.255.255.256:2222"
    ensures !ValidateAddress(address)
  {
    var octets := ["255", "255", "255", "256"];
    SmallDecimals();
    PortDecimals();
    assert address == Join(octets, '.') + ":" + Decimal(2222);
    LiteralAddress(address, octets, [255, 255, 255, 256], 2222);
  }

  lemma PortOutOfRangeRefused(address: string)
    requires address == "0.0.0.0:65536"
    ensures !ValidateAddress(address)
  {
    var octets := ["0", "0", "0", "0"];
    SmallDecimals();
    PortDecimals();
    assert address == Join(octets, '.') + ":" + Decimal(65536);
    LiteralAddress(address, octets, [0, 0, 0, 0], 65536);
  }
}
