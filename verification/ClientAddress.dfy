/**
 The client address behind a chain of proxies: `client_ip` of the rate limiter walks the
 forwarded hops from the right and stops at the first address it does not trust.
 */
module ClientAddress {
  import opened Options
  import opened Text

  // Addresses are only compared and tested for trust; parsing one is a parameter.
  type Address = nat

  /** All hops of a forwarding header, if each of them parses. */
  function ParseAll(parse: string -> Option<Address>, texts: seq<string>): Option<seq<Address>> {
    if texts == [] then Some([])
    else
      var first, rest := parse(Trim(texts[0])), ParseAll(parse, texts[1..]);
      if first.Some? && rest.Some? then Some([first.value] + rest.value) else None
  }

  function ParseHops(parse: string -> Option<Address>, header: string): Option<seq<Address>> {
    ParseAll(parse, Split(header, ','))
  }

  ghost predicate IsClientAt(trusted: Address -> bool, chain: seq<Address>, i: nat) {
    && i < |chain|
    && (forall j | i < j < |chain| :: trusted(chain[j]))
    && (i == 0 || !trusted(chain[i]))
  }

  /** `ip` is the right-most untrusted address of a chain, or its left-most if all are trusted. */
  ghost predicate IsClient(trusted: Address -> bool, chain: seq<Address>, ip: Address) {
    exists i: nat :: IsClientAt(trusted, chain, i) && chain[i] == ip
  }

  /** The hops that count: those of a well-formed header. */
  function Hops(parse: string -> Option<Address>, header: Option<string>): seq<Address> {
    if header.Some? && ParseHops(parse, header.value).Some? then ParseHops(parse, header.value).value else []
  }

  method ClientIp(
      parse: string -> Option<Address>, trusted: Address -> bool, header: Option<string>, peer: Address)
      returns (current: Address)
    ensures IsClient(trusted, Hops(parse, header) + [peer], current)
  {
    ghost var chain := Hops(parse, header) + [peer];
    if !trusted(peer) {
      assert IsClientAt(trusted, chain, |chain| - 1);
      return peer;
    }
    if header.None? {
      assert IsClientAt(trusted, chain, 0);
      return peer;
    }
    var parsed := ParseHops(parse, header.value);
    if parsed.None? || parsed.value == [] {
      assert IsClientAt(trusted, chain, 0);
      return peer;
    }
    var forwarded := parsed.value;
    current := peer;
    while forwarded != []
      invariant forwarded <= parsed.value
      invariant current == chain[|forwarded|]
      invariant forall j | |forwarded| < j < |chain| :: trusted(chain[j])
      decreases |forwarded|
    {
      var hop := forwarded[|forwarded| - 1];
      forwarded := forwarded[..|forwarded| - 1];
      if !trusted(current) {
        assert IsClientAt(trusted, chain, |forwarded| + 1);
        return;
      }
      current := hop;
    }
    assert IsClientAt(trusted, chain, 0);
  }

  /** The specification names one address. */
  lemma ClientIsUnique(trusted: Address -> bool, chain: seq<Address>, a: Address, b: Address)
    requires IsClient(trusted, chain, a) && IsClient(trusted, chain, b)
    ensures a == b
  {
    var i: nat :| IsClientAt(trusted, chain, i) && chain[i] == a;
    var k: nat :| IsClientAt(trusted, chain, k) && chain[k] == b;
    assert i == k;
  }

  lemma {:induction false} ParseAllConcat(parse: string -> Option<Address>, a: seq<string>, b: seq<string>)
    ensures ParseAll(parse, a + b) ==
        if ParseAll(parse, a).Some? && ParseAll(parse, b).Some?
        then Some(ParseAll(parse, a).value + ParseAll(parse, b).value) else None
  {
    if a == [] {
      assert a + b == b;
      if ParseAll(parse, b).Some? { assert [] + ParseAll(parse, b).value == ParseAll(parse, b).value; }
    } else {
      assert (a + b)[1..] == a[1..] + b && (a + b)[0] == a[0];
      ParseAllConcat(parse, a[1..], b);
      var first, rest, other := parse(Trim(a[0])), ParseAll(parse, a[1..]), ParseAll(parse, b);
      if first.Some? && rest.Some? && other.Some? {
        assert [first.value] + (rest.value + other.value) == [first.value] + rest.value + other.value;
      }
    }
  }

  /** A hop of a header: its text, and the spaces around it. */
  datatype Hop = Hop(before: string, text: string, after: string)

  predicate IsHop(hop: Hop) {
    Blank(hop.before) && Blank(hop.after) && Trimmed(hop.text) && ',' !in hop.before + hop.text + hop.after
  }

  function HeaderPieces(hops: seq<Hop>): (pieces: seq<string>)
    ensures |pieces| == |hops| && forall i | 0 <= i < |hops| :: pieces[i] == hops[i].before + hops[i].text + hops[i].after
  {
    seq(|hops|, i requires 0 <= i < |hops| => hops[i].before + hops[i].text + hops[i].after)
  }

  /** All hops parse, to these addresses. */
  ghost predicate ParsesTo(parse: string -> Option<Address>, hops: seq<Hop>, addresses: seq<Address>) {
    |addresses| == |hops| && forall i | 0 <= i < |hops| :: parse(hops[i].text) == Some(addresses[i])
  }

  lemma {:induction false} PiecesParse(parse: string -> Option<Address>, hops: seq<Hop>, addresses: seq<Address>)
    requires forall i | 0 <= i < |hops| :: IsHop(hops[i])
    ensures ParseAll(parse, HeaderPieces(hops)) == Some(addresses) <==> ParsesTo(parse, hops, addresses)
  {
    if hops != [] {
      var pieces, hop := HeaderPieces(hops), hops[0];
      assert IsHop(hops[0]);
      TrimOfPadded(hop.before, hop.text, hop.after);
      assert pieces[0] == hop.before + hop.text + hop.after;
      assert pieces[1..] == HeaderPieces(hops[1..]);
      if addresses != [] {
        PiecesParse(parse, hops[1..], addresses[1..]);
        assert addresses == [addresses[0]] + addresses[1..];
        assert ParsesTo(parse, hops, addresses) <==>
          parse(hop.text) == Some(addresses[0]) && ParsesTo(parse, hops[1..], addresses[1..]) by {
          assert hops == [hop] + hops[1..];
        }
      }
    }
  }

  /**
   The hops of a header are the addresses between its commas, without the spaces around them; one
   that cannot be parsed spoils the whole header.
   */
  lemma HopsOfHeader(parse: string -> Option<Address>, hops: seq<Hop>, addresses: seq<Address>)
    requires hops != [] && forall i | 0 <= i < |hops| :: IsHop(hops[i])
    ensures ParseHops(parse, Join(HeaderPieces(hops), ",")) == Some(addresses) <==> ParsesTo(parse, hops, addresses)
  {
    var pieces := HeaderPieces(hops);
    forall p <- pieces ensures ',' !in p {
      var i :| 0 <= i < |pieces| && pieces[i] == p;
      assert IsHop(hops[i]);
    }
    SplitUndoesJoin(pieces, ',');
    PiecesParse(parse, hops, addresses);
  }

  /** The client is found at the last untrusted place, so nothing in front of it matters. */
  lemma PrefixDoesNotMatter(trusted: Address -> bool, extra: seq<Address>, chain: seq<Address>, u: nat, ip: Address)
    requires u < |chain| && !trusted(chain[u])
    ensures IsClient(trusted, extra + chain, ip) <==> IsClient(trusted, chain, ip)
  {
    var n, long := |extra|, extra + chain;
    assert forall j | n <= j < |long| :: long[j] == chain[j - n];
    assert long[n + u] == chain[u];
    if i: nat :| IsClientAt(trusted, chain, i) && chain[i] == ip {
      assert i >= u && IsClientAt(trusted, long, n + i);
    }
    if i: nat :| IsClientAt(trusted, long, i) && long[i] == ip {
      assert i >= n + u && long[i] == chain[i - n];
      assert forall j | i - n < j < |chain| :: chain[j] == long[n + j];
      assert IsClientAt(trusted, chain, i - n);
    }
  }

  /**
   Spoofing does not help: once some address of the chain is untrusted, putting any well-formed
   hops in front of the header text leaves the client the same.
   */
  lemma PrependingHopsChangesNothing(
      parse: string -> Option<Address>, trusted: Address -> bool,
      spoofed: string, header: string, peer: Address, u: nat, ip: Address)
    requires ParseHops(parse, spoofed).Some? && ParseHops(parse, header).Some?
    requires var chain := Hops(parse, Some(header)) + [peer]; u < |chain| && !trusted(chain[u])
    ensures IsClient(trusted, Hops(parse, Some(spoofed + "," + header)) + [peer], ip)
       <==> IsClient(trusted, Hops(parse, Some(header)) + [peer], ip)
  {
    SplitConcat(spoofed, ',', header);
    ParseAllConcat(parse, Split(spoofed, ','), Split(header, ','));
    var extra, hops := ParseHops(parse, spoofed).value, ParseHops(parse, header).value;
    PrefixDoesNotMatter(trusted, extra, hops + [peer], u, ip);
    assert extra + (hops + [peer]) == (extra + hops) + [peer];
  }
}
