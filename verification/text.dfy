/**
 Text primitives the route settings screen relies on, written out with the
 semantics of Swift and Foundation:
 - `Trim` is `trimmingCharacters(in: .whitespacesAndNewlines)`;
 - `Split` is `components(separatedBy:)` with a one-character separator,
   so that splitting the empty string yields one empty component;
 - `Join` is `joined(separator:)`, so that joining no components yields "";
 - `RemoveAll` is `removeAll(where: { $0 == x })` on an array.
 */
module Text {

  /** The scalars taken as `whitespacesAndNewlines`: the Unicode space
      separators (category Zs), the tab, and the newline characters
      U+000A through U+000D, U+0085, U+2028 and U+2029. Foundation's own
      table may differ at the edges (U+200B, say); it is not part of this model. */
  predicate IsWhitespace(c: char) {
    || c == ' ' || c == '\t' || c == '\n' || c == '\U{B}' || c == '\U{C}' || c == '\r'
    || c == '\U{85}' || c == '\U{A0}' || c == '\U{1680}'
    || ('\U{2000}' <= c <= '\U{200A}')
    || c == '\U{2028}' || c == '\U{2029}' || c == '\U{202F}' || c == '\U{205F}' || c == '\U{3000}'
  }

  predicate AllWhitespace(s: string) {
    forall i :: 0 <= i < |s| ==> IsWhitespace(s[i])
  }

  /** A string that trimming leaves alone: empty, or with non-whitespace at both ends. */
  predicate Trimmed(s: string) {
    s == [] || (!IsWhitespace(s[0]) && !IsWhitespace(s[|s| - 1]))
  }

  /** Drops leading whitespace; `TrimStartSuffix` says which part of `s` remains. */
  function TrimStart(s: string): (r: string)
    ensures |r| <= |s|
    ensures r == [] || !IsWhitespace(r[0])
  {
    if |s| > 0 && IsWhitespace(s[0]) then TrimStart(s[1..]) else s
  }

  /** What `TrimStart` keeps is a suffix of `s`, and all it drops is whitespace. */
  lemma {:induction false} TrimStartSuffix(s: string)
    ensures TrimStart(s) == s[|s| - |TrimStart(s)|..]
    ensures AllWhitespace(s[..|s| - |TrimStart(s)|])
  {
    if |s| > 0 && IsWhitespace(s[0]) {
      TrimStartSuffix(s[1..]);
      DropOneMore(s, TrimStart(s[1..]));
    }
  }

  /** Dropping a leading whitespace character before trimming the rest drops
      one more whitespace character from `s`. */
  lemma DropOneMore(s: string, r: string)
    requires 0 < |s| && IsWhitespace(s[0])
    requires |r| <= |s| - 1 && r == s[1..][|s| - 1 - |r|..]
    requires AllWhitespace(s[1..][..|s| - 1 - |r|])
    ensures r == s[|s| - |r|..]
    ensures AllWhitespace(s[..|s| - |r|])
  {
    var k := |s| - 1 - |r|;
    assert s[1..][k..] == s[k + 1..];
    var dropped := s[..k + 1];
    forall i | 0 <= i < |dropped|
      ensures IsWhitespace(dropped[i])
    {
      if i > 0 {
        assert dropped[i] == s[1..][..k][i - 1];
      }
    }
  }

  /** Drops trailing whitespace; `TrimEndPrefix` says which part of `s` remains. */
  function TrimEnd(s: string): (r: string)
    ensures |r| <= |s|
    ensures r == [] || !IsWhitespace(r[|r| - 1])
  {
    if |s| > 0 && IsWhitespace(s[|s| - 1]) then TrimEnd(s[..|s| - 1]) else s
  }

  /** What `TrimEnd` keeps is a prefix of `s`, and all it drops is whitespace. */
  lemma {:induction false} TrimEndPrefix(s: string)
    ensures TrimEnd(s) == s[..|TrimEnd(s)|]
    ensures AllWhitespace(s[|TrimEnd(s)|..])
  {
    if |s| > 0 && IsWhitespace(s[|s| - 1]) {
      var init := s[..|s| - 1];
      var r := TrimEnd(init);
      TrimEndPrefix(init);
      assert s[|r|..] == init[|r|..] + [s[|s| - 1]];
    }
  }

  /** How many leading characters trimming drops. */
  function Lead(s: string): (n: nat)
    ensures n <= |s| && TrimStart(s) == s[n..] && AllWhitespace(s[..n])
  {
    TrimStartSuffix(s);
    |s| - |TrimStart(s)|
  }

  /** Removes leading and trailing whitespace; `TrimInfix` says which part
      of `s` remains. */
  function Trim(s: string): (r: string)
    ensures Trimmed(r) && |r| <= |s|
  {
    var t := TrimStart(s);
    var r := TrimEnd(t);
    TrimEndPrefix(t);
    Compose(s, Lead(s), t, r);
    r
  }

  /** The trimmed string is the infix of `s` that starts after the `Lead(s)`
      dropped characters, and only whitespace surrounds it. */
  lemma TrimInfix(s: string)
    ensures Lead(s) + |Trim(s)| <= |s| && Trim(s) == s[Lead(s)..Lead(s) + |Trim(s)|]
    ensures AllWhitespace(s[..Lead(s)]) && AllWhitespace(s[Lead(s) + |Trim(s)|..])
  {
    TrimEndPrefix(TrimStart(s));
    Compose(s, Lead(s), TrimStart(s), Trim(s));
  }

  /** Trimming the end of a suffix of `s` leaves an infix of `s`. */
  lemma Compose(s: string, lead: nat, t: string, r: string)
    requires lead <= |s| && t == s[lead..]
    requires |r| <= |t| && r == t[..|r|] && AllWhitespace(t[|r|..])
    requires t == [] || !IsWhitespace(t[0])
    requires r == [] || !IsWhitespace(r[|r| - 1])
    ensures Trimmed(r)
    ensures lead + |r| <= |s| && r == s[lead..lead + |r|]
    ensures AllWhitespace(s[lead + |r|..])
  {
    assert s[lead + |r|..] == t[|r|..];
    if r != [] {
      assert r[0] == t[0];
    }
  }

  lemma TrimOfTrimmed(s: string)
    requires Trimmed(s)
    ensures Trim(s) == s
  {
  }

  /** Trimming twice is trimming once. */
  lemma TrimIdempotent(s: string)
    ensures Trim(Trim(s)) == Trim(s)
  {
    TrimOfTrimmed(Trim(s));
  }

  /** Trimming yields the empty string exactly when the input is all whitespace. */
  lemma TrimEmptyIff(s: string)
    ensures Trim(s) == [] <==> AllWhitespace(s)
  {
    var t := TrimStart(s);
    var lead := Lead(s);
    if Trim(s) == [] {
      assert TrimEnd(t) == [];
      TrimEndPrefix(t);
      assert AllWhitespace(t[0..]);
      assert t == [];
      assert s[..lead] == s;
    } else if AllWhitespace(s) {
      TrimStartAllWhitespace(s);
    }
  }

  lemma {:induction false} TrimStartAllWhitespace(s: string)
    requires AllWhitespace(s)
    ensures TrimStart(s) == []
  {
    if |s| > 0 {
      assert IsWhitespace(s[0]);
      TrimStartAllWhitespace(s[1..]);
    }
  }


  /** The separator of the rule's comma-joined fields (`port`, `sourcePort`, `network`). */
  const Comma: char := ','

  /** `components(separatedBy: [sep])`: the pieces between separators, always at least one. */
  function Split(s: string, sep: char): (r: seq<string>)
    ensures |r| >= 1
    ensures forall i :: 0 <= i < |r| ==> sep !in r[i]
  {
    if |s| == 0 then [""]
    else
      var rest := Split(s[1..], sep);
      if s[0] == sep then [""] + rest
      else [[s[0]] + rest[0]] + rest[1..]
  }

  /** `joined(separator: [sep])`: no pieces join to "", and otherwise the
      join starts with the first piece. */
  function Join(parts: seq<string>, sep: char): (r: string)
    ensures parts == [] ==> r == ""
    ensures parts != [] ==> parts[0] <= r
  {
    if |parts| == 0 then ""
    else if |parts| == 1 then parts[0]
    else parts[0] + [sep] + Join(parts[1..], sep)
  }

  /** Separator-free pieces are joined with exactly one separator between
      neighbours. */
  lemma {:induction false} JoinCountsSeparators(parts: seq<string>, sep: char)
    requires NoSeparator(parts, sep) && parts != []
    ensures multiset(Join(parts, sep))[sep] == |parts| - 1
  {
    assert sep !in parts[0];
    if |parts| > 1 {
      var rest := parts[1..];
      forall i | 0 <= i < |rest|
        ensures sep !in rest[i]
      {
        assert rest[i] == parts[i + 1];
      }
      JoinCountsSeparators(rest, sep);
      assert Join(parts, sep) == parts[0] + [sep] + Join(rest, sep);
    }
  }

  predicate NoSeparator(parts: seq<string>, sep: char) {
    forall i :: 0 <= i < |parts| ==> sep !in parts[i]
  }

  lemma {:induction false} SplitWithoutSeparator(s: string, sep: char)
    requires sep !in s
    ensures Split(s, sep) == [s]
  {
    if |s| > 0 {
      SplitWithoutSeparator(s[1..], sep);
      assert [s[0]] + s[1..] == s;
    }
  }

  lemma {:induction false} SplitAtFirstSeparator(a: string, sep: char, b: string)
    requires sep !in a
    ensures Split(a + [sep] + b, sep) == [a] + Split(b, sep)
  {
    var s := a + [sep] + b;
    if |a| == 0 {
      assert s[1..] == b;
    } else {
      assert s[1..] == a[1..] + [sep] + b;
      SplitAtFirstSeparator(a[1..], sep, b);
      assert [a[0]] + a[1..] == a;
    }
  }

  /** Joining the components of a string gives back the string. */
  lemma {:induction false} JoinSplit(s: string, sep: char)
    ensures Join(Split(s, sep), sep) == s
  {
    if |s| > 0 {
      var rest := Split(s[1..], sep);
      JoinSplit(s[1..], sep);
      if s[0] == sep {
        assert Split(s, sep) == [""] + rest;
        assert ([""] + rest)[1..] == rest;
      } else {
        var parts := [[s[0]] + rest[0]] + rest[1..];
        if |rest| > 1 {
          assert parts[1..] == rest[1..];
        }
      }
    }
  }

  /** Splitting a join of separator-free pieces gives back the pieces, except
      that the empty list joins to "" and comes back as one empty component. */
  lemma {:induction false} SplitJoin(parts: seq<string>, sep: char)
    requires NoSeparator(parts, sep)
    ensures Split(Join(parts, sep), sep) == if parts == [] then [""] else parts
  {
    if |parts| == 1 {
      SplitWithoutSeparator(parts[0], sep);
    } else if |parts| > 1 {
      SplitJoin(parts[1..], sep);
      SplitAtFirstSeparator(parts[0], sep, Join(parts[1..], sep));
      assert [parts[0]] + parts[1..] == parts;
    }
  }

  /** Every element equal to `x` is dropped; the others keep their order and count. */
  function RemoveAll<T(==)>(s: seq<T>, x: T): (r: seq<T>)
    ensures x !in r
    ensures multiset(r) == multiset(s)[x := 0]
  {
    if |s| == 0 then []
    else
      assert s == [s[0]] + s[1..];
      (if s[0] == x then [] else [s[0]]) + RemoveAll(s[1..], x)
  }

  lemma {:induction false} RemoveAllAppend<T>(a: seq<T>, b: seq<T>, x: T)
    ensures RemoveAll(a + b, x) == RemoveAll(a, x) + RemoveAll(b, x)
  {
    if |a| > 0 {
      assert (a + b)[1..] == a[1..] + b;
      RemoveAllAppend(a[1..], b, x);
    } else {
      assert a + b == b;
    }
  }

  lemma {:induction false} RemoveAllAbsent<T>(s: seq<T>, x: T)
    requires x !in s
    ensures RemoveAll(s, x) == s
  {
    if |s| > 0 {
      var rest := s[1..];
      assert s == [s[0]] + rest;
      assert x !in rest && s[0] != x by {
        assert multiset(s) == multiset{s[0]} + multiset(rest);
      }
      RemoveAllAbsent(rest, x);
    }
  }

  /** Every element other than `x` is present after the removal exactly when it was before. */
  lemma RemoveAllKeepsOthers<T>(s: seq<T>, x: T)
    ensures forall y :: y != x ==> (y in RemoveAll(s, x) <==> y in s)
  {
    var r := RemoveAll(s, x);
    forall y | y != x
      ensures y in r <==> y in s
    {
      assert multiset(r)[y] == multiset(s)[y];
      assert (y in r) == (y in multiset(r));
      assert (y in s) == (y in multiset(s));
    }
  }

  /** Removing the same element twice is removing it once. */
  lemma RemoveAllIdempotent<T>(s: seq<T>, x: T)
    ensures RemoveAll(RemoveAll(s, x), x) == RemoveAll(s, x)
  {
    RemoveAllAbsent(RemoveAll(s, x), x);
  }

  /** Removing never introduces the separator into a component. */
  lemma {:induction false} RemoveAllNoSeparator(parts: seq<string>, x: string, sep: char)
    requires NoSeparator(parts, sep)
    ensures NoSeparator(RemoveAll(parts, x), sep)
  {
    var r := RemoveAll(parts, x);
    forall i | 0 <= i < |r|
      ensures sep !in r[i]
    {
      assert r[i] in multiset(r);
      assert r[i] in parts;
    }
  }
}
