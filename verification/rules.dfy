/**
 The route's rules and the edits the two settings screens apply to them:
 the rule list itself (append a new rule, swipe-to-delete, drag-to-move)
 and, inside one rule, the list fields, the network toggles and the
 protocol toggles.
 */
module Rules {
  import opened Text
  import opened ListEdits
  import StringList
  import PortLens
  import Network
  import Protocol

  /** The fields of a rule the editor changes through logic, plus its
      identity and metadata. */
  datatype Rule = Rule(
    id: string,
    name: string,
    enabled: bool,
    domain: seq<string>,
    ip: seq<string>,
    port: string,
    sourcePort: string,
    network: string,
    protocol: seq<string>)

  /** The four fields edited with the list-of-strings editor. */
  datatype ListField = Domain | Ip | Port | SourcePort

  /** One action of the list-of-strings editor. */
  datatype ListEdit =
    | Add(candidate: string)
    | Remove(offsets: set<nat>)
    | MoveTo(offsets: set<nat>, to: nat)

  /** One action of the rule editor. */
  datatype Edit =
    | EditList(field: ListField, edit: ListEdit)
    | ToggleTcp(tcpOn: bool)
    | ToggleUdp(udpOn: bool)
    | ToggleProtocol(token: Protocol.Token, protocolOn: bool)

  /** The list the editor shows for a field: domains and IPs as stored,
      ports through the comma-joined lens. */
  function List(rule: Rule, field: ListField): seq<string>
  {
    match field
    case Domain => rule.domain
    case Ip => rule.ip
    case Port => PortLens.Get(rule.port)
    case SourcePort => PortLens.Get(rule.sourcePort)
  }

  /** The rule after the editor hands back a new list for a field. */
  function WithList(rule: Rule, field: ListField, elements: seq<string>): Rule
  {
    match field
    case Domain => rule.(domain := elements)
    case Ip => rule.(ip := elements)
    case Port => rule.(port := PortLens.Set(elements))
    case SourcePort => rule.(sourcePort := PortLens.Set(elements))
  }

  /** SwiftUI only hands out offsets of rows that exist. */
  predicate ListEditValid(elements: seq<string>, e: ListEdit)
  {
    match e
    case Add(_) => true
    case Remove(offsets) => ValidOffsets(offsets, |elements|)
    case MoveTo(offsets, to) => ValidOffsets(offsets, |elements|) && to <= |elements|
  }

  function ApplyListEdit(elements: seq<string>, e: ListEdit): seq<string>
    requires ListEditValid(elements, e)
  {
    match e
    case Add(candidate) => StringList.Add(elements, candidate)
    case Remove(offsets) => RemoveAt(elements, offsets)
    case MoveTo(offsets, to) => Move(elements, offsets, to)
  }

  predicate EditValid(rule: Rule, e: Edit)
  {
    e.EditList? ==> ListEditValid(List(rule, e.field), e.edit)
  }

  /** The rule after one editor action. A toggle changes only its own field:
      afterwards its getter reads the new value, the other network toggle
      reads as before, and the other protocol entries are kept in order. */
  function Apply(rule: Rule, e: Edit): (r: Rule)
    requires EditValid(rule, e)
    ensures !e.EditList? ==>
      r.domain == rule.domain && r.ip == rule.ip && r.port == rule.port && r.sourcePort == rule.sourcePort
    ensures e.ToggleTcp? ==>
      && r.protocol == rule.protocol
      && Network.Has(r.network, Network.Tcp) == e.tcpOn
      && Network.Has(r.network, Network.Udp) == Network.Has(rule.network, Network.Udp)
    ensures e.ToggleUdp? ==>
      && r.protocol == rule.protocol
      && Network.Has(r.network, Network.Udp) == e.udpOn
      && Network.Has(r.network, Network.Tcp) == Network.Has(rule.network, Network.Tcp)
    ensures e.ToggleProtocol? ==>
      && r.network == rule.network
      && Protocol.Has(r.protocol, e.token) == e.protocolOn
      && RemoveAll(r.protocol, e.token.Name()) == RemoveAll(rule.protocol, e.token.Name())
  {
    match e
    case EditList(field, le) =>
      var elements := List(rule, field);
      var after := ApplyListEdit(elements, le);
      // A rejected add never mutates the list, so the field's setter never runs.
      if le.Add? && after == elements then rule else WithList(rule, field, after)
    case ToggleTcp(on) => rule.(network := Network.SetTcp(rule.network, on))
    case ToggleUdp(on) => rule.(network := Network.SetUdp(rule.network, on))
    case ToggleProtocol(t, on) => rule.(protocol := Protocol.Set(rule.protocol, t, on))
  }

  /** "Done" with a value that trims to nothing or is already listed leaves
      the rule exactly as it was, the stored port strings included. */
  lemma RejectedAddIsNoOp(rule: Rule, field: ListField, candidate: string)
    ensures Trim(candidate) == "" || Trim(candidate) in List(rule, field)
            ==> Apply(rule, EditList(field, Add(candidate))) == rule
  {
    var elements := List(rule, field);
    var after := StringList.Add(elements, candidate);
    if Trim(candidate) == "" || Trim(candidate) in elements {
      assert |after| == |elements| && elements <= after;
      assert after == elements;
    }
  }

  /** Each action of a sequence is valid on the rule it meets. */
  predicate AllValid(rule: Rule, edits: seq<Edit>)
    decreases |edits|
  {
    edits == [] || (EditValid(rule, edits[0]) && AllValid(Apply(rule, edits[0]), edits[1..]))
  }

  function ApplyAll(rule: Rule, edits: seq<Edit>): Rule
    requires AllValid(rule, edits)
    decreases |edits|
  {
    if edits == [] then rule else ApplyAll(Apply(rule, edits[0]), edits[1..])
  }

  /** The invariant of the rule's domain and IP lists. */
  ghost predicate Clean(rule: Rule)
  {
    StringList.Clean(rule.domain) && StringList.Clean(rule.ip)
  }

  /** No list, network or protocol action of the rule editor touches the
      rule's identity, name or enabled flag; the name field and the enabled
      switch are plain bindings outside `Edit`. */
  lemma ApplyKeepsIdentity(rule: Rule, e: Edit)
    requires EditValid(rule, e)
    ensures Apply(rule, e).id == rule.id
    ensures Apply(rule, e).name == rule.name && Apply(rule, e).enabled == rule.enabled
  {
    match e
    case EditList(field, le) =>
      var elements := ApplyListEdit(List(rule, field), le);
      assert Apply(rule, e) == rule || Apply(rule, e) == WithList(rule, field, elements);
    case _ =>
  }

  /** A list action on one field leaves every other field as it was. */
  lemma ListEditTouchesOneField(rule: Rule, field: ListField, le: ListEdit, other: ListField)
    requires ListEditValid(List(rule, field), le) && other != field
    ensures List(Apply(rule, EditList(field, le)), other) == List(rule, other)
    ensures Apply(rule, EditList(field, le)).network == rule.network
    ensures Apply(rule, EditList(field, le)).protocol == rule.protocol
  {
    var elements := ApplyListEdit(List(rule, field), le);
    var after := WithList(rule, field, elements);
    if Apply(rule, EditList(field, le)) != rule {
      assert Apply(rule, EditList(field, le)) == after;
    }
    match field
    case Domain =>
    case Ip =>
    case Port => assert after.sourcePort == rule.sourcePort;
    case SourcePort => assert after.port == rule.port;
  }

  /** Removing or moving rows keeps a port list well formed. */
  lemma OffsetEditKeepsWellFormed(elements: seq<string>, le: ListEdit)
    requires ListEditValid(elements, le) && !le.Add? && PortLens.WellFormed(elements)
    ensures PortLens.WellFormed(ApplyListEdit(elements, le))
  {
    var r := ApplyListEdit(elements, le);
    forall i | 0 <= i < |r|
      ensures r[i] != "" && Comma !in r[i]
    {
      if le.Remove? {
        RemoveAtFrom(elements, le.offsets);
        assert r[i] in r;
      } else {
        assert r[i] in multiset(r);
        assert r[i] in elements;
      }
    }
  }

  /** After a list action the editor shows what the list rule produces, for
      every field; for the port fields this holds as long as an added value
      contains no comma. */
  lemma ListEditShowsResult(rule: Rule, field: ListField, le: ListEdit)
    requires ListEditValid(List(rule, field), le)
    requires (field == Port || field == SourcePort) && le.Add? ==> Comma !in le.candidate
    ensures List(Apply(rule, EditList(field, le)), field) == ApplyListEdit(List(rule, field), le)
  {
    var before := List(rule, field);
    if field == Port || field == SourcePort {
      if le.Add? {
        PortLens.AddThroughLens(if field == Port then rule.port else rule.sourcePort, le.candidate);
      } else {
        OffsetEditKeepsWellFormed(before, le);
        PortLens.GetSet(ApplyListEdit(before, le));
      }
    }
  }

  /** Every editor action keeps the domain and IP lists clean. */
  lemma ApplyKeepsClean(rule: Rule, e: Edit)
    requires EditValid(rule, e) && Clean(rule)
    ensures Clean(Apply(rule, e))
  {
    if e.EditList? && (e.field == Domain || e.field == Ip) {
      var elements := List(rule, e.field);
      match e.edit
      case Add(_) =>
      case Remove(offsets) => StringList.RemovePreservesClean(elements, offsets);
      case MoveTo(offsets, to) => StringList.MovePreservesClean(elements, offsets, to);
    }
  }

  /** Any sequence of editor actions keeps the domain and IP lists clean and
      the identity of the rule unchanged. */
  lemma {:induction false} ApplyAllKeepsClean(rule: Rule, edits: seq<Edit>)
    requires AllValid(rule, edits) && Clean(rule)
    ensures Clean(ApplyAll(rule, edits))
    ensures ApplyAll(rule, edits).id == rule.id
    decreases |edits|
  {
    if edits != [] {
      ApplyKeepsClean(rule, edits[0]);
      ApplyKeepsIdentity(rule, edits[0]);
      ApplyAllKeepsClean(Apply(rule, edits[0]), edits[1..]);
    }
  }

  /** "Add rule": the new rule, built by the caller with its fresh identity,
      goes at the end and the existing rules keep their places. */
  function AddRule(rules: seq<Rule>, newRule: Rule): (r: seq<Rule>)
    ensures |r| == |rules| + 1 && rules <= r && r[|rules|] == newRule
  {
    rules + [newRule]
  }

  /** Deleting the rule just added gives back the list as it was. */
  lemma AddThenDeleteRestores(rules: seq<Rule>, newRule: Rule)
    ensures RemoveAt(AddRule(rules, newRule), {|rules|}) == rules
  {
    RemoveOne(AddRule(rules, newRule), |rules|);
    assert AddRule(rules, newRule)[..|rules|] == rules;
  }

  /** Editing one rule of the list puts the edited rule in its place, leaves
      every other rule as it was and keeps every identity in place. */
  function EditRuleAt(rules: seq<Rule>, k: nat, e: Edit): (r: seq<Rule>)
    requires k < |rules| && EditValid(rules[k], e)
    ensures |r| == |rules|
    ensures forall j :: 0 <= j < |rules| ==> r[j].id == rules[j].id
    ensures forall j :: 0 <= j < |rules| && j != k ==> r[j] == rules[j]
    ensures r[k] == Apply(rules[k], e)
  {
    ApplyKeepsIdentity(rules[k], e);
    rules[k := Apply(rules[k], e)]
  }

  /** Deleting and moving rules never changes a surviving rule: every rule
      after a delete or a move is one of the rules before it. */
  lemma RuleEditsKeepRules(rules: seq<Rule>, offsets: set<nat>, to: nat)
    requires ValidOffsets(offsets, |rules|) && to <= |rules|
    ensures forall x :: x in RemoveAt(rules, offsets) ==> x in rules
    ensures forall x :: x in Move(rules, offsets, to) ==> x in rules
  {
    RemoveAtFrom(rules, offsets);
    forall x | x in Move(rules, offsets, to)
      ensures x in rules
    {
      assert x in multiset(Move(rules, offsets, to));
    }
  }
}
