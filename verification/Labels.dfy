/** Evidence references: EVID_A, EVID_B, ... EVID_Z, EVID_AA and so on. */
module Labels {

  predicate IsLetter(c: char) { 'A' <= c <= 'Z' }

  function Letter(d: nat): (c: char)
    requires d < 26
    ensures IsLetter(c)
  {
    ('A' as int + d) as char
  }

  predicate IsLabel(s: string) { s != "" && forall c | c in s :: IsLetter(c) }

  function Label(index: nat): string {
    if index < 26 then [Letter(index)] else Label(index / 26 - 1) + [Letter(index % 26)]
  }

  /** The index a label was made from. */
  function Index(s: string): nat
    requires IsLabel(s)
  {
    var n := |s| - 1;
    assert s[n] in s && forall c | c in s[..n] :: c in s;
    var last := s[n] as int - 'A' as int;
    if n == 0 then last else 26 * (Index(s[..n]) + 1) + last
  }

  lemma {:induction false} IndexOfLabel(index: nat)
    ensures IsLabel(Label(index)) && Index(Label(index)) == index
  {
    if index >= 26 {
      var front := Label(index / 26 - 1);
      IndexOfLabel(index / 26 - 1);
      assert Label(index)[..|front|] == front;
    }
  }

  lemma {:induction false} LabelOfIndex(s: string)
    requires IsLabel(s)
    ensures Label(Index(s)) == s
  {
    var n := |s| - 1;
    assert s[n] in s && forall c | c in s[..n] :: c in s;
    assert s == s[..n] + [s[n]];
    var last := s[n] as int - 'A' as int;
    assert Letter(last) == s[n];
    if n == 0 {
      assert s == [s[0]];
    } else {
      LabelOfIndex(s[..n]);
      assert Index(s) / 26 - 1 == Index(s[..n]) && Index(s) % 26 == last;
    }
  }

  method CreateAlphabeticLabel(index: nat) returns (letters: string)
    ensures letters == Label(index)
  {
    letters := [Letter(index % 26)];
    var remaining: int := index / 26 - 1;
    while remaining >= 0
      invariant remaining >= -1
      invariant Label(index) == (if remaining >= 0 then Label(remaining) else "") + letters
    {
      var front := if remaining >= 26 then Label(remaining / 26 - 1) else "";
      assert front + [Letter(remaining % 26)] + letters == front + ([Letter(remaining % 26)] + letters);
      letters := [Letter(remaining % 26)] + letters;
      remaining := remaining / 26 - 1;
    }
  }

  /** One reference for each piece of evidence, all different. */
  method CreateEvidenceReferences(count: nat) returns (references: seq<string>)
    ensures references == References(count)
  {
    references := [];
    for index := 0 to count
      invariant references == References(index)
    {
      var letters := CreateAlphabeticLabel(index);
      references := references + ["EVID_" + letters];
    }
  }

  function References(count: nat): seq<string> {
    seq(count, i requires 0 <= i < count => "EVID_" + Label(i))
  }

  lemma ReferencesAreDistinct(count: nat)
    ensures |References(count)| == count
    ensures forall i, j | 0 <= i < j < count :: References(count)[i] != References(count)[j]
  {
    forall i, j | 0 <= i < j < count
      ensures References(count)[i] != References(count)[j]
    {
      IndexOfLabel(i);
      IndexOfLabel(j);
      assert References(count)[i][5..] == Label(i) && References(count)[j][5..] == Label(j);
    }
  }
}
