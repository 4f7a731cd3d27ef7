// Peer resolution and `host:port` parsing done by downloadFileUi before any
// network call (Main.py lines 136-144): a one-step address-book lookup,
// then `peer.split(":")` unpacked into exactly two parts and `int(port)`.
module Address {
  import opened Common

  /** A concrete peer address. */
  datatype Endpoint = Endpoint(host: string, port: nat)

  /**
   * Why an address was rejected: unpacking `split(":")` into two names
   * failed (it gave `parts` pieces), or the port text is not an integer.
   */
  datatype AddressError = WrongPartCount(parts: nat) | BadPort(text: string)

  /** The peer registry: peer name to `host:port` text. */
  type AddressBook = map<string, string>

  /**
   * The entered peer is replaced by its stored address when it names a peer,
   * and used verbatim otherwise; the lookup happens once.
   */
  function Resolve(book: AddressBook, peer: string): string
  {
    if peer in book then book[peer] else peer
  }

  /** Resolution is not transitive: a name whose stored address is itself a name is not looked up again. */
  lemma ResolveNotTransitive(book: AddressBook, name: string)
    requires name in book && book[name] in book && book[book[name]] != book[name]
    ensures Resolve(book, name) == book[name]
    ensures Resolve(book, name) != Resolve(book, Resolve(book, name))
  {
  }

  /** How many times `c` occurs in `s`. */
  function Count(s: string, c: char): nat
  {
    if s == [] then 0 else (if s[0] == c then 1 else 0) + Count(s[1..], c)
  }

  /** Python's `s.split(sep)` for a one-character separator. */
  function Split(s: string, sep: char): (parts: seq<string>)
    ensures |parts| >= 1
    decreases |s|
  {
    if s == [] then [""]
    else
      var rest := Split(s[1..], sep);
      if s[0] == sep then [""] + rest
      else [[s[0]] + rest[0]] + rest[1..]
  }

  /** Python's `sep.join(parts)`, the inverse of Split. */
  function Join(parts: seq<string>, sep: char): string
    requires |parts| >= 1
  {
    if |parts| == 1 then parts[0] else parts[0] + [sep] + Join(parts[1..], sep)
  }

  /** Splitting loses nothing: joining the parts back gives the input. */
  lemma {:induction false} SplitJoin(s: string, sep: char)
    ensures Join(Split(s, sep), sep) == s
    decreases |s|
  {
    if s != [] {
      var rest := Split(s[1..], sep);
      SplitJoin(s[1..], sep);
      if s[0] != sep && |rest| > 1 {
        assert ([[s[0]] + rest[0]] + rest[1..])[1..] == rest[1..];
      }
    }
  }

  /** No part contains the separator, and there is one more part than separators. */
  lemma {:induction false} SplitParts(s: string, sep: char)
    ensures forall i :: 0 <= i < |Split(s, sep)| ==> sep !in Split(s, sep)[i]
    ensures |Split(s, sep)| == Count(s, sep) + 1
    decreases |s|
  {
    if s != [] {
      SplitParts(s[1..], sep);
      var rest := Split(s[1..], sep);
      if s[0] != sep {
        assert sep !in [s[0]] + rest[0];
      }
    }
  }

  /** Splitting a separator-free prefix glued to more text extends the first part. */
  lemma {:induction false} SplitGlue(w: string, t: string, sep: char)
    requires sep !in w
    ensures Split(w + t, sep) == [w + Split(t, sep)[0]] + Split(t, sep)[1..]
    decreases |w|
  {
    if w != [] {
      assert (w + t)[0] == w[0];
      assert (w + t)[1..] == w[1..] + t;
      SplitGlue(w[1..], t, sep);
      assert [w[0]] + (w[1..] + Split(t, sep)[0]) == w + Split(t, sep)[0];
    } else {
      assert w + t == t;
      var p := Split(t, sep);
      assert p == [p[0]] + p[1..];
      assert w + p[0] == p[0];
    }
  }

  /** Joining separator-free parts and splitting again gives the parts back. */
  lemma {:induction false} JoinSplit(parts: seq<string>, sep: char)
    requires |parts| >= 1
    requires forall i :: 0 <= i < |parts| ==> sep !in parts[i]
    ensures Split(Join(parts, sep), sep) == parts
  {
    if |parts| == 1 {
      SplitGlue(parts[0], "", sep);
      assert parts[0] + "" == parts[0];
    } else {
      var tail := Join(parts[1..], sep);
      JoinSplit(parts[1..], sep);
      assert parts[0] + [sep] + tail == parts[0] + ([sep] + tail);
      SplitGlue(parts[0], [sep] + tail, sep);
      assert ([sep] + tail)[0] == sep;
      assert ([sep] + tail)[1..] == tail;
      assert Split([sep] + tail, sep) == [""] + parts[1..];
      assert parts[0] + "" == parts[0];
      assert parts == [parts[0]] + parts[1..];
    }
  }

  predicate IsDigit(c: char)
  {
    '0' <= c <= '9'
  }

  predicate AllDigits(s: string)
  {
    forall i :: 0 <= i < |s| ==> IsDigit(s[i])
  }

  /** The decimal value of a digit string, most significant digit first. */
  function DigitsValue(s: string): nat
    requires AllDigits(s)
  {
    if s == [] then 0
    else DigitsValue(s[..|s| - 1]) * 10 + (s[|s| - 1] as int - '0' as int)
  }

  /**
   * `int(port)` restricted to a non-empty string of ASCII digits; None where
   * Python raises ValueError.
   */
  function ParsePort(s: string): Option<nat>
  {
    if s != [] && AllDigits(s) then Some(DigitsValue(s)) else None
  }

  /** The decimal text of a number, as `str(n)` writes it. */
  function ShowNat(n: nat): (s: string)
    ensures s != [] && AllDigits(s)
  {
    var d := ((n % 10) + '0' as int) as char;
    if n < 10 then [d] else ShowNat(n / 10) + [d]
  }

  /** The port parse inverts the decimal text of any number. */
  lemma {:induction false} ParseShowNat(n: nat)
    ensures ParsePort(ShowNat(n)) == Some(n)
  {
    var s := ShowNat(n);
    if n >= 10 {
      ParseShowNat(n / 10);
      assert s[..|s| - 1] == ShowNat(n / 10);
      assert DigitsValue(s) == (n / 10) * 10 + n % 10;
    } else {
      assert DigitsValue(s) == DigitsValue([]) * 10 + n;
    }
  }

  /**
   * `ipAddress, port = addr.split(":")` followed by `port = int(port)`:
   * the unpacking is checked first, then the port conversion.
   */
  function ParseAddress(addr: string): Result<Endpoint, AddressError>
  {
    var parts := Split(addr, ':');
    if |parts| != 2 then Err(WrongPartCount(|parts|))
    else match ParsePort(parts[1])
      case None => Err(BadPort(parts[1]))
      case Some(p) => Ok(Endpoint(parts[0], p))
  }

  /** The `host:port` text for an endpoint. */
  function Format(e: Endpoint): string
  {
    e.host + ":" + ShowNat(e.port)
  }

  /** Zero colons or more than one colon is rejected, reporting how many parts the split gave. */
  lemma ParseAddressColons(addr: string)
    ensures Count(addr, ':') != 1 <==> ParseAddress(addr) == Err(WrongPartCount(Count(addr, ':') + 1))
  {
    SplitParts(addr, ':');
  }

  /**
   * With exactly one colon, the text before it is the host verbatim and the
   * text after it must be a digit string, else the port is rejected.
   */
  lemma ParseAddressOneColon(host: string, portText: string)
    requires ':' !in host && ':' !in portText
    ensures ParseAddress(host + ":" + portText)
         == match ParsePort(portText)
            case Some(p) => Ok(Endpoint(host, p))
            case None => Err(BadPort(portText))
  {
    JoinSplit([host, portText], ':');
    assert Join([host, portText], ':') == host + ":" + portText;
  }

  /** Parsing inverts formatting for any host free of colons. */
  lemma ParseFormat(e: Endpoint)
    requires ':' !in e.host
    ensures ParseAddress(Format(e)) == Ok(e)
  {
    var t := ShowNat(e.port);
    assert ':' !in t by {
      assert forall i :: 0 <= i < |t| ==> IsDigit(t[i]);
    }
    ParseAddressOneColon(e.host, t);
    ParseShowNat(e.port);
  }
}
