/**
 The HTTP, TLS and BitTorrent toggles of the rule editor. The rule's
 `protocol` is an array of strings; a toggle reads whether its token is in
 the array and writes by removing every copy of the token and appending it
 again when switched on, so the array lists the protocols in the order they
 were last switched on.
 */
module Protocol {
  import opened Text

  datatype Token = Http | Tls | Bittorrent {
    /** The string stored in the rule for this protocol. */
    function Name(): string {
      match this
      case Http => "http"
      case Tls => "tls"
      case Bittorrent => "bittorrent"
    }
  }

  /** The getter of a protocol toggle: on exactly when the setter's removal
      step would find something to remove. */
  predicate Has(protocols: seq<string>, t: Token): (on: bool)
    ensures on <==> RemoveAll(protocols, t.Name()) != protocols
  {
    if t.Name() in protocols then
      assert t.Name() !in RemoveAll(protocols, t.Name());
      true
    else
      RemoveAllAbsent(protocols, t.Name());
      false
  }

  /** The setter of a protocol toggle. Switched on, the token occurs exactly
      once, at the end; switched off, it occurs nowhere. Either way the other
      entries are kept with their order and multiplicity. */
  function Set(protocols: seq<string>, t: Token, on: bool): (r: seq<string>)
    ensures Has(r, t) == on
    ensures on ==> r[|r| - 1] == t.Name() && multiset(r)[t.Name()] == 1
    ensures RemoveAll(r, t.Name()) == RemoveAll(protocols, t.Name())
  {
    var rest := RemoveAll(protocols, t.Name());
    var tail := if on then [t.Name()] else [];
    RemoveAllAppend(rest, tail, t.Name());
    RemoveAllIdempotent(protocols, t.Name());
    assert RemoveAll(tail, t.Name()) == [] by {
      assert tail == [] || tail[1..] == [];
    }
    rest + tail
  }

  lemma NamesDistinct(t: Token, u: Token)
    ensures t != u ==> t.Name() != u.Name()
  {
    if t != u {
      assert t.Name()[0] != u.Name()[0] || |t.Name()| != |u.Name()|;
    }
  }

  /** Switching one protocol leaves the getters of the others unchanged. */
  lemma SetKeepsOtherToggles(protocols: seq<string>, t: Token, on: bool, u: Token)
    requires u != t
    ensures Has(Set(protocols, t, on), u) == Has(protocols, u)
  {
    NamesDistinct(t, u);
    RemoveAllKeepsOthers(Set(protocols, t, on), t.Name());
    RemoveAllKeepsOthers(protocols, t.Name());
  }

  /** Switching a protocol to the same value twice is switching it once. */
  lemma SetIdempotent(protocols: seq<string>, t: Token, on: bool)
    ensures Set(Set(protocols, t, on), t, on) == Set(protocols, t, on)
  {
    var once := Set(protocols, t, on);
    assert RemoveAll(once, t.Name()) == RemoveAll(protocols, t.Name());
  }

  /** Switching off a protocol that is absent changes nothing. */
  lemma SetOffWhenAbsent(protocols: seq<string>, t: Token)
    requires !Has(protocols, t)
    ensures Set(protocols, t, false) == protocols
  {
    RemoveAllAbsent(protocols, t.Name());
  }

  /** Switching two protocols on one after the other keeps every other entry
      in its order and puts the two last, in the order they were switched on. */
  lemma SwitchOnOrder(protocols: seq<string>, t: Token, u: Token)
    requires t != u
    ensures Set(Set(protocols, t, true), u, true)
            == RemoveAll(RemoveAll(protocols, t.Name()), u.Name()) + [t.Name(), u.Name()]
  {
    var tn, un := t.Name(), u.Name();
    NamesDistinct(t, u);
    var rest := RemoveAll(protocols, tn);
    var once := Set(protocols, t, true);
    assert once == rest + [tn];
    var kept := RemoveAll(once, un);
    assert kept == RemoveAll(rest, un) + [tn] by {
      RemoveAllAppend(rest, [tn], un);
      RemoveAllAbsent([tn], un);
    }
    assert Set(once, u, true) == kept + [un];
    AppendPair(RemoveAll(rest, un), tn, un);
  }

  lemma AppendPair<T>(s: seq<T>, x: T, y: T)
    ensures (s + [x]) + [y] == s + [x, y]
  {
  }

  /** From an empty array, two protocols switched on are the whole array, in order. */
  lemma SwitchOnFromEmpty(t: Token, u: Token)
    requires t != u
    ensures Set(Set([], t, true), u, true) == [t.Name(), u.Name()]
  {
    SwitchOnOrder([], t, u);
    assert RemoveAll([], t.Name()) == [];
  }
}
