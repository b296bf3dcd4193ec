/** Shared datatypes and facts about sums, sorting and counting. */
module Prelude {
  datatype Option<+T> = None | Some(value: T)

  datatype Result<+T, +E> = Ok(value: T) | Err(error: E)

  function Max(a: int, b: int): int { if a < b then b else a }

  function Sum(weights: seq<nat>): nat {
    if weights == [] then 0 else weights[0] + Sum(weights[1..])
  }

  lemma {:induction false} SumUpdate(weights: seq<nat>, i: nat, w: nat)
    requires i < |weights|
    ensures Sum(weights[i := w]) == Sum(weights) - weights[i] + w
  {
    if i == 0 {
      assert weights[0 := w][1..] == weights[1..];
    } else {
      assert weights[i := w][1..] == weights[1..][i - 1 := w];
      SumUpdate(weights[1..], i - 1, w);
    }
  }

  lemma {:induction false} SumMember(weights: seq<nat>, i: nat)
    requires i < |weights|
    ensures weights[i] <= Sum(weights)
  {
    if i > 0 {
      SumMember(weights[1..], i - 1);
    }
  }

  function Reverse<T>(s: seq<T>): seq<T> {
    seq(|s|, i requires 0 <= i < |s| => s[|s| - 1 - i])
  }

  /** The distinct elements in order of first occurrence. */
  function Unique<T(==)>(s: seq<T>): seq<T> {
    if s == [] then []
    else
      var before := Unique(s[..|s| - 1]);
      var last := s[|s| - 1];
      if last in s[..|s| - 1] then before else before + [last]
  }

  lemma {:induction false} UniqueFacts<T>(s: seq<T>)
    ensures forall x :: x in Unique(s) <==> x in s
    ensures forall i, j | 0 <= i < j < |Unique(s)| :: Unique(s)[i] != Unique(s)[j]
  {
    if s != [] {
      var n := |s| - 1;
      UniqueFacts(s[..n]);
      assert s == s[..n] + [s[n]];
    }
  }

  lemma UniqueMember<T>(s: seq<T>, i: nat)
    requires i < |Unique(s)|
    ensures Unique(s)[i] in s
  {
    UniqueFacts(s);
    assert Unique(s)[i] in Unique(s);
  }

  /** Of two distinct elements the one that comes first is first mentioned first. */
  lemma {:induction false} UniqueInOrder<T>(s: seq<T>, i: nat, j: nat) returns (a: nat)
    requires i < j < |Unique(s)|
    ensures a < |s| && s[a] == Unique(s)[i] && Unique(s)[j] !in s[..a + 1]
  {
    var n := |s| - 1;
    var before := Unique(s[..n]);
    UniqueFacts(s[..n]);
    if j < |before| {
      a := UniqueInOrder(s[..n], i, j);
      assert s[..n][..a + 1] == s[..a + 1];
    } else {
      UniqueMember(s[..n], i);
      a :| 0 <= a < n && s[a] == before[i];
      assert forall x | x in s[..a + 1] :: x in s[..n];
    }
  }

  lemma Glue<T>(a: seq<T>, b: seq<T>, c: seq<T>)
    ensures a + b + c == a + (b + c)
  {
  }

  /** A text that is these parts with a separator between each two. */
  ghost predicate JoinedBy(text: string, parts: seq<string>, separator: string) {
    if parts == [] then text == ""
    else if |parts| == 1 then text == parts[0]
    else
      var n := |parts[0]| + |separator|;
      n <= |text| && text[..n] == parts[0] + separator && JoinedBy(text[n..], parts[1..], separator)
  }

  lemma JoinOneMore(part: string, separator: string, rest: string, parts: seq<string>)
    requires parts != [] && JoinedBy(rest, parts, separator)
    ensures JoinedBy(part + separator + rest, [part] + parts, separator)
  {
    var text, n := part + separator + rest, |part| + |separator|;
    assert text[..n] == part + separator && text[n..] == rest;
    assert ([part] + parts)[1..] == parts;
  }
}
