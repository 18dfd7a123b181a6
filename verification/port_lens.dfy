/**
 A rule keeps `port` and `sourcePort` as one comma-joined string but edits
 them as a list. The getter splits on "," and drops empty tokens; the setter
 joins with ",". The same pair of functions serves both fields.
 */
module PortLens {
  import opened Text
  import StringList

  /** Tokens that survive the lens: non-empty and free of the separator. */
  predicate WellFormed(tokens: seq<string>) {
    forall i :: 0 <= i < |tokens| ==> tokens[i] != "" && Comma !in tokens[i]
  }

  /** The list the editor is shown for a stored port string. */
  function Get(stored: string): (tokens: seq<string>)
    ensures WellFormed(tokens)
  {
    RemoveAllNoSeparator(Split(stored, Comma), "", Comma);
    RemoveAll(Split(stored, Comma), "")
  }

  /** The string stored when the editor hands back a list: "" for no tokens,
      and otherwise a string whose comma-separated components are exactly the
      well-formed tokens handed back. */
  function Set(tokens: seq<string>): (stored: string)
    ensures tokens == [] ==> stored == ""
    ensures WellFormed(tokens) ==> Split(stored, Comma) == if tokens == [] then [""] else tokens
  {
    if WellFormed(tokens) then
      assert NoSeparator(tokens, Comma);
      SplitJoin(tokens, Comma);
      Join(tokens, Comma)
    else Join(tokens, Comma)
  }

  /** Storing well-formed tokens and reading them back yields the same list,
      the empty list included. */
  lemma GetSet(tokens: seq<string>)
    requires WellFormed(tokens)
    ensures Get(Set(tokens)) == tokens
  {
    SplitJoin(tokens, Comma);
    if tokens != [] {
      RemoveAllAbsent(tokens, "");
    } else {
      assert [""][1..] == [];
    }
  }

  /** Reading, storing and reading again shows the same list: the only thing a
      round trip through the editor normalises away is empty tokens. */
  lemma GetSetGet(stored: string)
    ensures Get(Set(Get(stored))) == Get(stored)
  {
    GetSet(Get(stored));
  }

  /** A stored string without empty tokens survives a round trip unchanged;
      so does the empty string, whose one empty component is dropped and
      joined back into "". */
  lemma SetGet(stored: string)
    requires stored == "" || "" !in Split(stored, Comma)
    ensures Set(Get(stored)) == stored
  {
    if stored == "" {
      assert Split(stored, Comma) == [""];
      assert [""][1..] == [];
      assert Get(stored) == [];
    } else {
      RemoveAllAbsent(Split(stored, Comma), "");
      JoinSplit(stored, Comma);
    }
  }

  /** Trimming cannot create a comma. */
  lemma TrimKeepsCommaFree(candidate: string)
    requires Comma !in candidate
    ensures Comma !in Trim(candidate)
  {
    var r := Trim(candidate);
    var lead := Lead(candidate);
    TrimInfix(candidate);
    forall i | 0 <= i < |r|
      ensures r[i] != Comma
    {
      assert r[i] == candidate[lead + i] && candidate[lead + i] in candidate;
    }
  }

  /** The add rule keeps a list of well-formed tokens well formed when the
      typed value holds no comma. */
  lemma AddKeepsWellFormed(tokens: seq<string>, candidate: string)
    requires WellFormed(tokens) && Comma !in candidate
    ensures WellFormed(StringList.Add(tokens, candidate))
  {
    var value := Trim(candidate);
    if value != "" && value !in tokens {
      TrimKeepsCommaFree(candidate);
      AppendKeepsWellFormed(tokens, value);
      assert StringList.Add(tokens, candidate) == tokens + [value];
    } else {
      assert StringList.Add(tokens, candidate) == tokens;
    }
  }

  lemma AppendKeepsWellFormed(tokens: seq<string>, value: string)
    requires WellFormed(tokens) && value != "" && Comma !in value
    ensures WellFormed(tokens + [value])
  {
    var after := tokens + [value];
    forall i | 0 <= i < |after|
      ensures after[i] != "" && Comma !in after[i]
    {
      if i < |tokens| {
        assert after[i] == tokens[i];
      }
    }
  }

  /** Adding a port through the editor stores the string whose list is
      exactly what the list editor's add rule produces, provided the typed
      value holds no comma (a comma splits it into several tokens). */
  lemma AddThroughLens(stored: string, candidate: string)
    requires Comma !in candidate
    ensures Get(Set(StringList.Add(Get(stored), candidate))) == StringList.Add(Get(stored), candidate)
  {
    var after := StringList.Add(Get(stored), candidate);
    AddKeepsWellFormed(Get(stored), candidate);
    GetSet(after);
  }
}
