/**
 The TCP and UDP toggles of the rule editor. The rule's `network` is one
 comma-joined string; each toggle reads membership of its token among the
 components, and writes by splitting, removing every copy of the token,
 putting it back when switched on ("tcp" in front, "udp" at the back) and
 joining again.

 Because splitting "" yields one empty component, the stored string can
 carry empty components: switching TCP on for "" stores "tcp,". The
 properties below are therefore about membership and position of the
 tokens among the components, not about the exact spelling of the string.
 */
module Network {
  import opened Text

  const Tcp: string := "tcp"
  const Udp: string := "udp"

  function Components(network: string): seq<string>
  {
    Split(network, Comma)
  }

  /** The getter of both toggles: on exactly when the setter's removal step
      would find something to remove, and never for a token with a comma. */
  predicate Has(network: string, token: string): (on: bool)
    ensures on <==> RemoveAll(Components(network), token) != Components(network)
    ensures on ==> Comma !in token
  {
    if token in Components(network) then
      assert token !in RemoveAll(Components(network), token);
      true
    else
      RemoveAllAbsent(Components(network), token);
      false
  }

  /** The setter of the TCP toggle: afterwards the TCP getter reads `on`, the
      UDP getter is unchanged, and a TCP that is on is the first component. */
  function SetTcp(network: string, on: bool): (r: string)
    ensures Has(r, Tcp) == on
    ensures Has(r, Udp) == Has(network, Udp)
    ensures on ==> Components(r)[0] == Tcp
  {
    var rest := Others(network, Tcp);
    var parts := if on then [Tcp] + rest else rest;
    TcpIsNotUdp();
    PlaceToken(network, Tcp, Udp, on, parts);
    Join(parts, Comma)
  }

  /** The setter of the UDP toggle: afterwards the UDP getter reads `on`, the
      TCP getter is unchanged, and a UDP that is on is the last component. */
  function SetUdp(network: string, on: bool): (r: string)
    ensures Has(r, Udp) == on
    ensures Has(r, Tcp) == Has(network, Tcp)
    ensures on ==> var c := Components(r); c[|c| - 1] == Udp
  {
    var rest := Others(network, Udp);
    var parts := if on then rest + [Udp] else rest;
    TcpIsNotUdp();
    PlaceToken(network, Udp, Tcp, on, parts);
    Join(parts, Comma)
  }

  /** The components left over when every copy of `token` is removed. */
  function Others(network: string, token: string): (rest: seq<string>)
    ensures token !in rest
    ensures NoSeparator(rest, Comma)
    ensures forall t :: t != token ==> (t in rest <==> t in Components(network))
  {
    var rest := RemoveAll(Components(network), token);
    RemoveAllNoSeparator(Components(network), token, Comma);
    RemoveAllKeepsOthers(Components(network), token);
    rest
  }

  /** Components of a joined list, read back through the getter's split. */
  lemma ComponentsOfJoin(parts: seq<string>)
    requires NoSeparator(parts, Comma)
    ensures Components(Join(parts, Comma)) == if parts == [] then [""] else parts
  {
    SplitJoin(parts, Comma);
  }

  /** What the TCP setter stores, read back as components: "tcp" in front of
      the other components when on; the other components alone when off
      (one empty component when nothing is left). */
  lemma TcpComponents(network: string, on: bool)
    ensures on ==> Components(SetTcp(network, on)) == [Tcp] + Others(network, Tcp)
    ensures !on ==> Components(SetTcp(network, on))
                    == if Others(network, Tcp) == [] then [""] else Others(network, Tcp)
  {
    var rest := Others(network, Tcp);
    var parts := if on then [Tcp] + rest else rest;
    assert NoSeparator(parts, Comma) by {
      assert Comma !in Tcp;
    }
    ComponentsOfJoin(parts);
  }

  /** What the UDP setter stores, read back as components: "udp" after the
      other components when on; the other components alone when off. */
  lemma UdpComponents(network: string, on: bool)
    ensures on ==> Components(SetUdp(network, on)) == Others(network, Udp) + [Udp]
    ensures !on ==> Components(SetUdp(network, on))
                    == if Others(network, Udp) == [] then [""] else Others(network, Udp)
  {
    var rest := Others(network, Udp);
    var parts := if on then rest + [Udp] else rest;
    assert NoSeparator(parts, Comma) by {
      assert Comma !in Udp;
    }
    ComponentsOfJoin(parts);
  }

  /** Storing the other components with `token` put back in front or at the
      back when on: the getter of `token` reads `on` and the getter of any other
      non-empty token is unchanged. */
  lemma PlaceToken(network: string, token: string, other: string, on: bool, parts: seq<string>)
    requires token != other && token != "" && other != "" && Comma !in token
    requires on ==> parts == [token] + Others(network, token) || parts == Others(network, token) + [token]
    requires !on ==> parts == Others(network, token)
    ensures Components(Join(parts, Comma)) == if parts == [] then [""] else parts
    ensures Has(Join(parts, Comma), token) == on
    ensures Has(Join(parts, Comma), other) == Has(network, other)
  {
    var rest := Others(network, token);
    assert NoSeparator(parts, Comma) by {
      forall i | 0 <= i < |parts|
        ensures Comma !in parts[i]
      {
        if parts[i] != token {
          assert parts[i] in rest;
        }
      }
    }
    ComponentsOfJoin(parts);
    assert (other in rest) == Has(network, other);
  }

  /** Switching TCP to the same value twice stores what switching once does. */
  lemma SetTcpIdempotent(network: string, on: bool)
    ensures SetTcp(SetTcp(network, on), on) == SetTcp(network, on)
  {
    var once := SetTcp(network, on);
    var rest := Others(network, Tcp);
    TcpComponents(network, on);
    if on {
      RemoveAllAppend([Tcp], rest, Tcp);
      RemoveAllAbsent(rest, Tcp);
      assert Others(once, Tcp) == rest;
    } else if rest != [] {
      RemoveAllAbsent(rest, Tcp);
      assert Others(once, Tcp) == rest;
    } else {
      assert Components(once) == [""];
      assert Others(once, Tcp) == [""] by {
        RemoveAllAbsent([""], Tcp);
      }
    }
  }

  /** Switching UDP to the same value twice stores what switching once does. */
  lemma SetUdpIdempotent(network: string, on: bool)
    ensures SetUdp(SetUdp(network, on), on) == SetUdp(network, on)
  {
    var once := SetUdp(network, on);
    var rest := Others(network, Udp);
    UdpComponents(network, on);
    if on {
      RemoveAllAppend(rest, [Udp], Udp);
      RemoveAllAbsent(rest, Udp);
      assert Others(once, Udp) == rest;
    } else if rest != [] {
      RemoveAllAbsent(rest, Udp);
      assert Others(once, Udp) == rest;
    } else {
      assert Components(once) == [""];
      assert Others(once, Udp) == [""] by {
        RemoveAllAbsent([""], Udp);
      }
    }
  }

  /** Switching a toggle off when its token is absent stores the string as it was. */
  lemma SetOffWhenAbsent(network: string)
    ensures !Has(network, Tcp) ==> SetTcp(network, false) == network
    ensures !Has(network, Udp) ==> SetUdp(network, false) == network
  {
    JoinSplit(network, Comma);
    if !Has(network, Tcp) {
      RemoveAllAbsent(Components(network), Tcp);
    }
    if !Has(network, Udp) {
      RemoveAllAbsent(Components(network), Udp);
    }
  }

  lemma TcpIsNotUdp()
    ensures Tcp != Udp
    ensures RemoveAll([Tcp], Udp) == [Tcp] && RemoveAll([Udp], Tcp) == [Udp]
  {
    assert Tcp[0] != Udp[0];
    assert [Tcp][1..] == [] && [Udp][1..] == [];
  }

  /** With TCP switched on and then UDP, "tcp" is the first component and
      "udp" the last. */
  lemma TcpThenUdpOrder(network: string)
    ensures var c := Components(SetUdp(SetTcp(network, true), true));
            |c| >= 2 && c[0] == Tcp && c[|c| - 1] == Udp
  {
    var tcpFirst := SetTcp(network, true);
    var rest := Others(network, Tcp);
    TcpComponents(network, true);
    assert Components(tcpFirst) == [Tcp] + rest;
    UdpComponents(tcpFirst, true);
    TcpIsNotUdp();
    RemoveAllAppend([Tcp], rest, Udp);
    var kept := Others(tcpFirst, Udp);
    assert kept == [Tcp] + RemoveAll(rest, Udp);
    assert Components(SetUdp(tcpFirst, true)) == kept + [Udp];
  }

  /** With UDP switched on and then TCP, "tcp" is again the first component
      and "udp" the last: whichever toggle is pressed first, TCP precedes UDP. */
  lemma UdpThenTcpOrder(network: string)
    ensures var c := Components(SetTcp(SetUdp(network, true), true));
            |c| >= 2 && c[0] == Tcp && c[|c| - 1] == Udp
  {
    var udpFirst := SetUdp(network, true);
    var rest := Others(network, Udp);
    UdpComponents(network, true);
    assert Components(udpFirst) == rest + [Udp];
    TcpComponents(udpFirst, true);
    TcpIsNotUdp();
    RemoveAllAppend(rest, [Udp], Tcp);
    var kept := Others(udpFirst, Tcp);
    assert kept == RemoveAll(rest, Tcp) + [Udp];
    assert Components(SetTcp(udpFirst, true)) == [Tcp] + kept;
  }

  lemma ComponentsOfSamples()
    ensures Components("") == [""]
    ensures Components("tcp,") == ["tcp", ""]
    ensures Components("tcp,,udp") == ["tcp", "", "udp"]
  {
    assert Comma !in Tcp && Comma !in Udp;
    ComponentsOfTwo(Tcp, "");
    assert "tcp," == Tcp + [Comma] + "";
    ComponentsOfThree(Tcp, "", Udp);
    assert "tcp,,udp" == Tcp + [Comma] + ("" + [Comma] + Udp);
  }

  lemma ComponentsOfTwo(a: string, b: string)
    requires Comma !in a && Comma !in b
    ensures Components(a + [Comma] + b) == [a, b]
  {
    SplitAtFirstSeparator(a, Comma, b);
    SplitWithoutSeparator(b, Comma);
  }

  lemma ComponentsOfThree(a: string, b: string, c: string)
    requires Comma !in a && Comma !in b && Comma !in c
    ensures Components(a + [Comma] + (b + [Comma] + c)) == [a, b, c]
  {
    SplitAtFirstSeparator(a, Comma, b + [Comma] + c);
    ComponentsOfTwo(b, c);
  }

  /** Removing a token that occurs only in front drops the front. */
  lemma RemoveAllOnlyFront(parts: seq<string>, token: string)
    requires |parts| > 0 && parts[0] == token && token !in parts[1..]
    ensures RemoveAll(parts, token) == parts[1..]
  {
    RemoveAllAbsent(parts[1..], token);
  }

  lemma JoinTwo(parts: seq<string>)
    requires |parts| == 2
    ensures Join(parts, Comma) == parts[0] + [Comma] + parts[1]
  {
  }

  lemma JoinThree(parts: seq<string>)
    requires |parts| == 3
    ensures Join(parts, Comma) == parts[0] + [Comma] + parts[1] + [Comma] + parts[2]
  {
    JoinTwo(parts[1..]);
  }

  /** Switching TCP on in a field whose only component is empty keeps that
      empty component behind "tcp". */
  lemma TcpOnOverEmptyComponent(stored: string)
    requires Components(stored) == [""]
    ensures SetTcp(stored, true) == "tcp,"
  {
    var c := Components(stored);
    assert Others(stored, Tcp) == c by {
      RemoveAllAbsent(c, Tcp);
    }
    var parts := [Tcp] + c;
    assert Join(parts, Comma) == "tcp," by {
      JoinTwo(parts);
      assert parts[0] + [Comma] + parts[1] == "tcp,";
    }
    assert SetTcp(stored, true) == Join(parts, Comma);
  }

  lemma UdpOnOverTcpAndEmpty(stored: string)
    requires Components(stored) == [Tcp, ""]
    ensures SetUdp(stored, true) == "tcp,,udp"
  {
    var c := Components(stored);
    assert Others(stored, Udp) == c by {
      assert Tcp[0] != Udp[0];
      RemoveAllAbsent(c, Udp);
    }
    var parts := c + [Udp];
    assert Join(parts, Comma) == "tcp,,udp" by {
      JoinThree(parts);
      assert parts[0] + [Comma] + parts[1] + [Comma] + parts[2] == "tcp,,udp";
    }
    assert SetUdp(stored, true) == Join(parts, Comma);
  }

  lemma TcpOffOverTcpEmptyUdp(stored: string)
    requires Components(stored) == [Tcp, "", Udp]
    ensures SetTcp(stored, false) == ",udp"
  {
    var c := Components(stored);
    var rest := c[1..];
    assert Others(stored, Tcp) == rest by {
      assert Tcp[0] != Udp[0];
      RemoveAllOnlyFront(c, Tcp);
    }
    assert Join(rest, Comma) == ",udp" by {
      JoinTwo(rest);
      assert rest[0] + [Comma] + rest[1] == ",udp";
    }
    assert SetTcp(stored, false) == Join(rest, Comma);
  }

  /** Starting from an empty field: TCP on, UDP on, TCP off. The empty
      component the first split produced stays in the stored string, so the
      field ends as ",udp" rather than "udp". */
  lemma ToggleSequenceFromEmpty()
    ensures SetTcp("", true) == "tcp,"
    ensures SetUdp("tcp,", true) == "tcp,,udp"
    ensures SetTcp("tcp,,udp", false) == ",udp"
  {
    ComponentsOfSamples();
    TcpOnOverEmptyComponent("");
    UdpOnOverTcpAndEmpty("tcp,");
    TcpOffOverTcpEmptyUdp("tcp,,udp");
  }
}
