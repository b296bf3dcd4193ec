/** Streaming an answer while it is written: the server sends what changed
    between snapshots, and the browser rebuilds the snapshots from it. */
module Stream {
  import opened Prelude
  import opened PublishedModel

  datatype Preview = Preview(key: string, citationNumber: Option<int>, pageNumbers: seq<int>, sourceFile: string)

  datatype Content = Content(citationKeys: seq<string>, content: string, presentation: Presentation, section: Section)

  datatype Snapshot = Snapshot(citations: seq<Preview>, statements: seq<Content>)

  datatype StatementUpdate =
    | Metadata(index: nat, citationKeys: seq<string>)
    | Append(index: nat, citationKeys: seq<string>, content: string, presentation: Presentation, section: Section)
    | Replace(index: nat, citationKeys: seq<string>, content: string, presentation: Presentation, section: Section)

  datatype Update = Update(citations: seq<Preview>, statementCount: nat, statements: seq<StatementUpdate>)

  const EMPTY := Snapshot([], [])

  // ------------------------------------------------------------------ sending

  predicate SameLayout(a: Content, b: Content) {
    a.presentation == b.presentation && a.section == b.section
  }

  /** What to send about the statement at an index, if it is not what it was. */
  function Change(previous: Option<Content>, current: Content, index: nat): Option<StatementUpdate> {
    if previous == Some(current) then None
    else if previous.Some? && previous.value.content == current.content && SameLayout(previous.value, current) then
      Some(Metadata(index, current.citationKeys))
    else if previous.Some? && SameLayout(previous.value, current) && previous.value.content <= current.content then
      Some(Append(index, current.citationKeys, current.content[|previous.value.content|..],
                  current.presentation, current.section))
    else
      Some(Replace(index, current.citationKeys, current.content, current.presentation, current.section))
  }

  function At(statements: seq<Content>, index: nat): Option<Content> {
    if index < |statements| then Some(statements[index]) else None
  }

  function Changes(previous: seq<Content>, current: seq<Content>): seq<StatementUpdate> {
    if current == [] then []
    else
      var n := |current| - 1;
      var change := Change(At(previous, n), current[n], n);
      Changes(previous, current[..n]) + (if change.Some? then [change.value] else [])
  }

  function UpdateOf(previous: Snapshot, current: Snapshot): Update {
    Update(current.citations, |current.statements|, Changes(previous.statements, current.statements))
  }

  method CreateAnswerContentUpdate(previous: Snapshot, current: Snapshot) returns (update: Update)
    ensures update == UpdateOf(previous, current)
  {
    var statements: seq<StatementUpdate> := [];
    for index := 0 to |current.statements|
      invariant statements == Changes(previous.statements, current.statements[..index])
    {
      assert current.statements[..index + 1][..index] == current.statements[..index];
      var now := current.statements[index];
      if index < |previous.statements| && previous.statements[index] == now {
        continue;
      }
      if index >= |previous.statements| {
        statements := statements + [Replace(index, now.citationKeys, now.content, now.presentation, now.section)];
        continue;
      }
      var was := previous.statements[index];
      if was.content == now.content && SameLayout(was, now) {
        statements := statements + [Metadata(index, now.citationKeys)];
        continue;
      }
      var append := SameLayout(was, now) && was.content <= now.content;
      statements := statements + [
        if append then Append(index, now.citationKeys, now.content[|was.content|..], now.presentation, now.section)
        else Replace(index, now.citationKeys, now.content, now.presentation, now.section)];
    }
    assert current.statements[..|current.statements|] == current.statements;
    update := Update(current.citations, |current.statements|, statements);
  }

  // ---------------------------------------------------------------- receiving

  /** Assigning past the end of an array leaves holes. */
  function Put(slots: seq<Option<Content>>, index: nat, c: Content): seq<Option<Content>> {
    if index < |slots| then slots[index := Some(c)]
    else slots + seq(index - |slots|, i => None) + [Some(c)]
  }

  /** One statement update; None where the receiver throws. */
  function ApplyOne(slots: seq<Option<Content>>, u: StatementUpdate): Option<seq<Option<Content>>> {
    var previous := if u.index < |slots| then slots[u.index] else None;
    match u
    case Metadata(index, keys) =>
      if previous.None? then None else Some(Put(slots, index, previous.value.(citationKeys := keys)))
    case Append(index, keys, content, presentation, section) =>
      if previous.None? then None
      else Some(Put(slots, index, Content(keys, previous.value.content + content, presentation, section)))
    case Replace(index, keys, content, presentation, section) =>
      Some(Put(slots, index, Content(keys, content, presentation, section)))
  }

  function ApplyAll(slots: seq<Option<Content>>, updates: seq<StatementUpdate>): Option<seq<Option<Content>>> {
    if updates == [] then Some(slots)
    else
      var n := |updates| - 1;
      var before := ApplyAll(slots, updates[..n]);
      if before.None? then None else ApplyOne(before.value, updates[n])
  }

  predicate NoHoles(slots: seq<Option<Content>>) {
    forall i | 0 <= i < |slots| :: slots[i].Some?
  }

  function Filled(slots: seq<Option<Content>>): seq<Content>
    requires NoHoles(slots)
  {
    seq(|slots|, i requires 0 <= i < |slots| => slots[i].value)
  }

  function Slots(statements: seq<Content>): seq<Option<Content>> {
    seq(|statements|, i requires 0 <= i < |statements| => Some(statements[i]))
  }

  function Kept(content: Snapshot, update: Update): seq<Option<Content>> {
    Slots(if update.statementCount < |content.statements| then content.statements[..update.statementCount]
          else content.statements)
  }

  function Applied(content: Snapshot, update: Update): Option<Snapshot> {
    var slots := ApplyAll(Kept(content, update), update.statements);
    if slots.None? || !NoHoles(slots.value) then None
    else Some(Snapshot(update.citations, Filled(slots.value)))
  }

  method ApplyAnswerContentUpdate(content: Snapshot, update: Update) returns (r: Option<Snapshot>)
    ensures r == Applied(content, update)
  {
    var slots := Kept(content, update);
    for i := 0 to |update.statements|
      invariant ApplyAll(Kept(content, update), update.statements[..i]) == Some(slots)
    {
      assert update.statements[..i + 1][..i] == update.statements[..i];
      var next := ApplyOne(slots, update.statements[i]);
      if next.None? {
        FailureStays(Kept(content, update), update.statements, i + 1);
        return None;
      }
      slots := next.value;
    }
    assert update.statements[..|update.statements|] == update.statements;
    if !NoHoles(slots) {
      return None;
    }
    r := Some(Snapshot(update.citations, Filled(slots)));
  }

  lemma {:induction false} FailureStays(slots: seq<Option<Content>>, updates: seq<StatementUpdate>, k: nat)
    requires k <= |updates| && ApplyAll(slots, updates[..k]).None?
    ensures ApplyAll(slots, updates).None?
    decreases |updates|
  {
    if k == |updates| {
      assert updates[..k] == updates;
    } else {
      assert updates[..|updates| - 1][..k] == updates[..k];
      FailureStays(slots, updates[..|updates| - 1], k);
    }
  }

  // ----------------------------------------------------------- nothing is lost

  /** After the changes of the first n statements the receiver has those, and
      still the previous ones behind them. */
  function Halfway(previous: seq<Content>, current: seq<Content>, n: nat): seq<Option<Content>>
    requires n <= |current|
  {
    Slots(current[..n] + (if n < |previous| then previous[n..] else []))
  }

  lemma {:induction false} ChangesRebuild(previous: seq<Content>, current: seq<Content>, n: nat)
    requires n <= |current|
    ensures ApplyAll(Slots(previous), Changes(previous, current[..n])) == Some(Halfway(previous, current, n))
  {
    if n == 0 {
      assert Halfway(previous, current, 0) == Slots(previous);
    } else {
      ChangesRebuild(previous, current, n - 1);
      assert current[..n][..n - 1] == current[..n - 1];
      var before := Changes(previous, current[..n - 1]);
      var change := Change(At(previous, n - 1), current[n - 1], n - 1);
      ChangeRebuilds(previous, current, n);
      if change.Some? {
        assert Changes(previous, current[..n]) == before + [change.value];
        assert (before + [change.value])[..|before|] == before;
      } else {
        assert Changes(previous, current[..n]) == before;
      }
    }
  }

  lemma ChangeRebuilds(previous: seq<Content>, current: seq<Content>, n: nat)
    requires 0 < n <= |current|
    ensures var change := Change(At(previous, n - 1), current[n - 1], n - 1);
      if change.None? then Halfway(previous, current, n - 1) == Halfway(previous, current, n)
      else ApplyOne(Halfway(previous, current, n - 1), change.value) == Some(Halfway(previous, current, n))
  {
    var before, after := Halfway(previous, current, n - 1), Halfway(previous, current, n);
    var was, now := At(previous, n - 1), current[n - 1];
    assert |before| == (if n - 1 < |previous| then |previous| else n - 1);
    if was.Some? {
      assert before[n - 1] == was;
      assert after == before[n - 1 := Some(now)];
      if was.value.content <= now.content {
        assert was.value.content + now.content[|was.value.content|..] == now.content;
      }
    } else {
      assert after == before + [Some(now)];
      assert Put(before, n - 1, now) == after;
    }
  }

  /** Applying the update between any two snapshots to the first gives the second. */
  lemma UpdateRebuilds(previous: Snapshot, current: Snapshot)
    ensures Applied(previous, UpdateOf(previous, current)) == Some(current)
  {
    var kept := if |current.statements| < |previous.statements| then previous.statements[..|current.statements|]
                else previous.statements;
    SameChanges(previous.statements, kept, current.statements, |current.statements|);
    assert current.statements[..|current.statements|] == current.statements;
    ChangesRebuild(kept, current.statements, |current.statements|);
    assert Halfway(kept, current.statements, |current.statements|) == Slots(current.statements);
    assert Filled(Slots(current.statements)) == current.statements;
  }

  lemma {:induction false} SameChanges(previous: seq<Content>, kept: seq<Content>, current: seq<Content>, n: nat)
    requires n <= |current| && forall i | 0 <= i < n :: At(previous, i) == At(kept, i)
    ensures Changes(previous, current[..n]) == Changes(kept, current[..n])
  {
    if n > 0 {
      assert current[..n][..n - 1] == current[..n - 1];
      SameChanges(previous, kept, current, n - 1);
    }
  }

  lemma {:induction false} NoChanges(previous: seq<Content>, current: seq<Content>, n: nat)
    requires n <= |current|
    ensures Changes(previous, current[..n]) == [] <==> forall i | 0 <= i < n :: At(previous, i) == Some(current[i])
  {
    if n > 0 {
      assert current[..n][..n - 1] == current[..n - 1];
      NoChanges(previous, current, n - 1);
    }
  }

  /** An update says nothing exactly if the snapshots are equal. */
  lemma SilentMeansEqual(previous: Snapshot, current: Snapshot)
    ensures previous == current <==>
            && UpdateOf(previous, current).statements == []
            && UpdateOf(previous, current).statementCount == |previous.statements|
            && previous.citations == current.citations
  {
    NoChanges(previous.statements, current.statements, |current.statements|);
    assert current.statements[..|current.statements|] == current.statements;
    if UpdateOf(previous, current).statements == [] && |current.statements| == |previous.statements| {
      forall i | 0 <= i < |current.statements|
        ensures previous.statements[i] == current.statements[i]
      {
        assert At(previous.statements, i) == Some(current.statements[i]);
      }
    }
  }

  // ---------------------------------------------------------------- the writer

  datatype WriterState = WriterState(lastContent: Snapshot, written: seq<Update>, firstContentCalls: nat)

  const INITIAL := WriterState(EMPTY, [], 0)

  function Step(s: WriterState, content: Snapshot): WriterState {
    if content.statements == [] || content == s.lastContent then s
    else
      WriterState(content, s.written + [UpdateOf(s.lastContent, content)],
                  s.firstContentCalls + (if s.lastContent.statements == [] then 1 else 0))
  }

  function Run(contents: seq<Snapshot>): WriterState {
    if contents == [] then INITIAL else Step(Run(contents[..|contents| - 1]), contents[|contents| - 1])
  }

  class AnswerContentWriter {
    var lastContent: Snapshot
    var written: seq<Update>
    var firstContentCalls: nat

    function State(): WriterState
      reads this
    {
      WriterState(lastContent, written, firstContentCalls)
    }

    constructor ()
      ensures State() == INITIAL
    {
      lastContent, written, firstContentCalls := EMPTY, [], 0;
    }

    method Receive(content: Snapshot)
      modifies this
      ensures State() == Step(old(State()), content)
    {
      if content.statements == [] {
        return;
      }
      var update := CreateAnswerContentUpdate(lastContent, content);
      var same := CitationsMatch(lastContent.citations, content.citations);
      SilentMeansEqual(lastContent, content);
      if update.statements == [] && update.statementCount == |lastContent.statements| && same {
        return;
      }
      if lastContent.statements == [] {
        firstContentCalls := firstContentCalls + 1;
      }
      lastContent := content;
      written := written + [update];
    }
  }

  method CitationsMatch(previous: seq<Preview>, current: seq<Preview>) returns (same: bool)
    ensures same == (previous == current)
  {
    if |previous| != |current| {
      return false;
    }
    for index := 0 to |current|
      invariant previous[..index] == current[..index]
    {
      assert previous[index] == current[index] ==>
               previous[..index + 1] == previous[..index] + [previous[index]] == current[..index + 1];
      if previous[index] != current[index] {
        return false;
      }
    }
    assert previous[..|current|] == previous && current[..|current|] == current;
    same := true;
  }

  // ---------------------------------------------------------------- whole runs

  /** What a receiver that starts empty has after some updates. */
  function Replay(updates: seq<Update>): Option<Snapshot> {
    if updates == [] then Some(EMPTY)
    else
      var before := Replay(updates[..|updates| - 1]);
      if before.None? then None else Applied(before.value, updates[|updates| - 1])
  }

  function LastWithContent(contents: seq<Snapshot>): Snapshot {
    if contents == [] then EMPTY
    else if contents[|contents| - 1].statements != [] then contents[|contents| - 1]
    else LastWithContent(contents[..|contents| - 1])
  }

  /** Whatever snapshots are fed to the writer, a receiver that applies what it
      has written holds exactly the last one that had content. */
  lemma {:induction false} ReceiverHoldsLast(contents: seq<Snapshot>)
    ensures Run(contents).lastContent == LastWithContent(contents)
    ensures Replay(Run(contents).written) == Some(LastWithContent(contents))
  {
    if contents != [] {
      var before, content := contents[..|contents| - 1], contents[|contents| - 1];
      ReceiverHoldsLast(before);
      var s := Run(before);
      if Step(s, content) != s {
        UpdateRebuilds(s.lastContent, content);
        var update := UpdateOf(s.lastContent, content);
        assert (s.written + [update])[..|s.written|] == s.written;
      }
    }
  }

  /** The first-content callback runs once if any snapshot has content, else never. */
  lemma {:induction false} FirstContentOnce(contents: seq<Snapshot>)
    ensures Run(contents).firstContentCalls == if exists c | c in contents :: c.statements != [] then 1 else 0
    ensures Run(contents).lastContent.statements != [] <==> exists c | c in contents :: c.statements != []
  {
    if contents != [] {
      var before, content := contents[..|contents| - 1], contents[|contents| - 1];
      FirstContentOnce(before);
      assert contents == before + [content];
    }
  }

  // -------------------------------------------------------- what the browser accepts

  predicate Unrepeated(keys: seq<string>) {
    forall i, j | 0 <= i < j < |keys| :: keys[i] != keys[j]
  }

  predicate GoodPreview(c: Preview) {
    && c.key != "" && c.sourceFile != "" && (forall p | p in c.pageNumbers :: p >= 1)
    && (c.citationNumber.Some? ==> c.citationNumber.value >= 1)
  }

  predicate GoodPreviews(citations: seq<Preview>) {
    && (forall c | c in citations :: GoodPreview(c))
    && (forall i, j | 0 <= i < j < |citations| :: citations[i].key != citations[j].key)
  }

  predicate Available(citations: seq<Preview>, key: string) {
    exists c | c in citations :: c.key == key
  }

  predicate GoodKeys(citations: seq<Preview>, keys: seq<string>) {
    Unrepeated(keys) && forall k | k in keys :: k != "" && Available(citations, k)
  }

  predicate AcceptedOne(u: Update, s: StatementUpdate) {
    s.index < u.statementCount && GoodKeys(u.citations, s.citationKeys) && (s.Metadata? || s.content != "")
  }

  /** The checks of readAnswerContentUpdate. */
  predicate Accepted(u: Update) {
    && GoodPreviews(u.citations)
    && (forall s | s in u.statements :: AcceptedOne(u, s))
    && (forall i, j | 0 <= i < j < |u.statements| :: u.statements[i].index != u.statements[j].index)
  }

  predicate WellFormed(s: Snapshot) {
    && GoodPreviews(s.citations)
    && forall i | 0 <= i < |s.statements| ::
         GoodKeys(s.citations, s.statements[i].citationKeys) && s.statements[i].content != ""
  }

  /** The changes name statements in order and carry their keys. */
  lemma {:induction false} ChangesFacts(previous: seq<Content>, current: seq<Content>, n: nat)
    requires n <= |current|
    ensures var changes := Changes(previous, current[..n]);
      && (forall u | u in changes ::
            u.index < n && Change(At(previous, u.index), current[u.index], u.index) == Some(u))
      && (forall i: nat | i < n && Change(At(previous, i), current[i], i).Some? ::
            Change(At(previous, i), current[i], i).value in changes)
      && (forall i, j | 0 <= i < j < |changes| :: changes[i].index < changes[j].index)
  {
    if n > 0 {
      assert current[..n][..n - 1] == current[..n - 1];
      ChangesFacts(previous, current, n - 1);
      var before := Changes(previous, current[..n - 1]);
      assert forall i | 0 <= i < |before| :: before[i] in before;
    }
  }

  // ------------------------------------------------------- what an update says

  /** What is to be said about a statement: where only its citations differ from
      those of the one in its place, no text; where it goes on from that one,
      the rest of its text; else its whole text. */
  ghost predicate Says(u: StatementUpdate, previous: seq<Content>, now: Content) {
    && u.citationKeys == now.citationKeys
    && (u.Metadata? <==>
          && u.index < |previous| && previous[u.index].content == now.content
          && previous[u.index].presentation == now.presentation && previous[u.index].section == now.section)
    && (u.Append? <==>
          && u.index < |previous| && previous[u.index].content < now.content
          && previous[u.index].presentation == now.presentation && previous[u.index].section == now.section)
    && (u.Append? ==> previous[u.index].content + u.content == now.content)
    && (u.Replace? ==> u.content == now.content)
    && (!u.Metadata? ==> u.presentation == now.presentation && u.section == now.section)
  }

  ghost predicate Names(changes: seq<StatementUpdate>, i: nat) {
    exists u | u in changes :: u.index == i
  }

  /** An update names, in order and once each, exactly the statements that are
      not what stood in their place. */
  lemma ChangesAreSaid(previous: Snapshot, current: Snapshot)
    ensures var update := UpdateOf(previous, current);
      && update.citations == current.citations && update.statementCount == |current.statements|
      && (forall i: nat | i < |current.statements| ::
            Names(update.statements, i) <==>
            !(i < |previous.statements| && previous.statements[i] == current.statements[i]))
      && (forall u | u in update.statements ::
            u.index < |current.statements| && Says(u, previous.statements, current.statements[u.index]))
      && (forall i, j | 0 <= i < j < |update.statements| :: update.statements[i].index < update.statements[j].index)
  {
    var n := |current.statements|;
    assert current.statements[..n] == current.statements;
    ChangesFacts(previous.statements, current.statements, n);
    forall i: nat | i < n
      ensures Names(UpdateOf(previous, current).statements, i) <==>
              !(i < |previous.statements| && previous.statements[i] == current.statements[i])
    {
      NamedExactlyWhen(previous.statements, current.statements, UpdateOf(previous, current).statements, i);
    }
    forall u | u in UpdateOf(previous, current).statements
      ensures u.index < n && Says(u, previous.statements, current.statements[u.index])
    {
      ChangeSays(previous.statements, current.statements[u.index], u);
    }
  }

  lemma NamedExactlyWhen(previous: seq<Content>, current: seq<Content>, changes: seq<StatementUpdate>, i: nat)
    requires i < |current|
    requires forall u | u in changes ::
               u.index < |current| && Change(At(previous, u.index), current[u.index], u.index) == Some(u)
    requires var change := Change(At(previous, i), current[i], i); change.Some? ==> change.value in changes
    ensures Names(changes, i) <==> !(i < |previous| && previous[i] == current[i])
  {
    var change := Change(At(previous, i), current[i], i);
    if change.Some? {
      assert change.value in changes && change.value.index == i;
    }
  }

  lemma ChangeSays(previous: seq<Content>, now: Content, u: StatementUpdate)
    requires Change(At(previous, u.index), now, u.index) == Some(u)
    ensures Says(u, previous, now)
  {
    if u.Append? {
      var was := previous[u.index].content;
      assert was + now.content[|was|..] == now.content;
    }
  }

  // ------------------------------------------------ when an update can be applied

  /** A statement that is kept, or named before the k-th update, is at an index. */
  ghost predicate Present(content: Snapshot, update: Update, k: nat, i: nat)
    requires k <= |update.statements|
  {
    || (i < |content.statements| && i < update.statementCount)
    || exists j | 0 <= j < k :: update.statements[j].index == i
  }

  ghost predicate Reached(content: Snapshot, update: Update, k: nat, i: nat)
    requires k <= |update.statements|
  {
    || (i < |content.statements| && i < update.statementCount)
    || exists j | 0 <= j < k :: i <= update.statements[j].index
  }

  /** The k-th update goes on from a statement that is not there. */
  ghost predicate Dangles(content: Snapshot, update: Update, k: int) {
    && 0 <= k < |update.statements| && !update.statements[k].Replace?
    && !Present(content, update, k, update.statements[k].index)
  }

  /** The receiver rejects an update exactly if it goes on from a statement that
      is not there, or leaves a hole before a statement that it names. */
  lemma AppliedExactlyWhen(content: Snapshot, update: Update)
    ensures Applied(content, update).None? <==>
            || (exists k :: Dangles(content, update, k))
            || (exists i: nat, k | 0 <= k < |update.statements| ::
                  i < update.statements[k].index && !Present(content, update, |update.statements|, i))
  {
    var n := |update.statements|;
    assert update.statements[..n] == update.statements;
    SlotsArePresent(content, update, n);
    var slots := ApplyAll(Kept(content, update), update.statements);
    if slots.Some? {
      forall i: nat
        ensures i < |slots.value| && slots.value[i].None? <==>
                !Present(content, update, n, i) && exists k | 0 <= k < n :: i < update.statements[k].index
      {
        assert i < |slots.value| <==> Reached(content, update, n, i);
        if Reached(content, update, n, i) && !Present(content, update, n, i) {
          var k :| 0 <= k < n && i <= update.statements[k].index;
          assert i < update.statements[k].index;
        }
      }
    }
  }

  lemma {:induction false} SlotsArePresent(content: Snapshot, update: Update, k: nat)
    requires k <= |update.statements|
    ensures var slots := ApplyAll(Kept(content, update), update.statements[..k]);
      && (slots.None? <==> exists m | m < k :: Dangles(content, update, m))
      && (slots.Some? ==> SlotsAre(slots.value, content, update, k))
  {
    if k == 0 {
      assert update.statements[..0] == [];
    } else {
      SlotsArePresent(content, update, k - 1);
      assert update.statements[..k][..k - 1] == update.statements[..k - 1];
      var before := ApplyAll(Kept(content, update), update.statements[..k - 1]);
      if before.Some? {
        OneMoreSlot(before.value, content, update, k - 1);
      }
      if m :| m < k && Dangles(content, update, m) {
        assert m < k - 1 || m == k - 1;
      }
    }
  }

  ghost predicate SlotsAre(slots: seq<Option<Content>>, content: Snapshot, update: Update, k: nat)
    requires k <= |update.statements|
  {
    && (forall i: nat :: i < |slots| <==> Reached(content, update, k, i))
    && (forall i: nat | i < |slots| :: slots[i].Some? <==> Present(content, update, k, i))
  }

  lemma OneMoreSlot(slots: seq<Option<Content>>, content: Snapshot, update: Update, k: nat)
    requires k < |update.statements| && SlotsAre(slots, content, update, k)
    ensures var after := ApplyOne(slots, update.statements[k]);
      && (after.None? <==> Dangles(content, update, k))
      && (after.Some? ==> SlotsAre(after.value, content, update, k + 1))
  {
    var u, next := update.statements[k], k + 1;
    forall i: nat
      ensures Present(content, update, k, i) ==> i < |slots|
    {
      assert Present(content, update, k, i) ==> Reached(content, update, k, i);
    }
    assert forall i: nat :: Present(content, update, next, i) <==> Present(content, update, k, i) || i == u.index;
    assert forall i: nat :: Reached(content, update, next, i) <==> Reached(content, update, k, i) || i <= u.index;
    FilledSlots(slots, u);
  }

  /** A statement update fills its own slot, and makes room for it. */
  lemma FilledSlots(slots: seq<Option<Content>>, u: StatementUpdate)
    ensures var after := ApplyOne(slots, u);
      after.Some? ==>
        && |after.value| == (if u.index < |slots| then |slots| else u.index + 1)
        && forall i | 0 <= i < |after.value| ::
             after.value[i].Some? <==> i == u.index || (i < |slots| && slots[i].Some?)
  {
  }

  // ------------------------------------------------ reading an update in the browser

  method ReadAnswerContentUpdate(u: Update) returns (accepted: bool)
    ensures accepted <==> Accepted(u)
  {
    var availableKeys: set<string> := {};
    for i := 0 to |u.citations|
      invariant GoodPreviews(u.citations[..i])
      invariant forall k :: k in availableKeys <==> Available(u.citations[..i], k)
    {
      var c := u.citations[i];
      OneMorePreview(u.citations, i);
      if c.key == "" || c.key in availableKeys || c.sourceFile == ""
         || !(forall p | p in c.pageNumbers :: p >= 1) || (c.citationNumber.Some? && c.citationNumber.value < 1) {
        return false;
      }
      availableKeys := availableKeys + {c.key};
    }
    assert u.citations[..|u.citations|] == u.citations;
    var indexes: set<nat> := {};
    for i := 0 to |u.statements|
      invariant forall j | 0 <= j < i :: AcceptedOne(u, u.statements[j])
      invariant forall j, k | 0 <= j < k < i :: u.statements[j].index != u.statements[k].index
      invariant forall x :: x in indexes <==> exists j | 0 <= j < i :: u.statements[j].index == x
    {
      var s := u.statements[i];
      assert s in u.statements;
      if s.index >= u.statementCount || s.index in indexes {
        return false;
      }
      var goodKeys := ReadCitationKeys(s.citationKeys, u.citations, availableKeys);
      if !goodKeys || (!s.Metadata? && s.content == "") {
        return false;
      }
      indexes := indexes + {s.index};
    }
    accepted := true;
  }

  method ReadCitationKeys(keys: seq<string>, ghost citations: seq<Preview>, availableKeys: set<string>)
    returns (good: bool)
    requires forall k :: k in availableKeys <==> Available(citations, k)
    ensures good <==> GoodKeys(citations, keys)
  {
    var seen: set<string> := {};
    for i := 0 to |keys|
      invariant GoodKeys(citations, keys[..i])
      invariant forall k :: k in seen <==> k in keys[..i]
    {
      assert keys[i] in keys && keys[..i + 1] == keys[..i] + [keys[i]];
      if keys[i] == "" || keys[i] in seen || keys[i] !in availableKeys {
        return false;
      }
      seen := seen + {keys[i]};
    }
    assert keys[..|keys|] == keys;
    good := true;
  }

  lemma OneMorePreview(citations: seq<Preview>, i: nat)
    requires i < |citations| && GoodPreviews(citations[..i])
    ensures GoodPreview(citations[i]) && !Available(citations[..i], citations[i].key) <==> GoodPreviews(citations[..i + 1])
    ensures !GoodPreviews(citations[..i + 1]) ==> !GoodPreviews(citations)
    ensures forall k :: Available(citations[..i + 1], k) <==> Available(citations[..i], k) || k == citations[i].key
  {
    assert citations[..i + 1] == citations[..i] + [citations[i]];
    assert forall j | 0 <= j < i :: citations[..i][j] in citations[..i];
  }

  /** The browser never rejects an update towards a well-formed snapshot. */
  lemma WellFormedIsAccepted(previous: Snapshot, current: Snapshot)
    requires WellFormed(current)
    ensures Accepted(UpdateOf(previous, current))
  {
    var n := |current.statements|;
    assert current.statements[..n] == current.statements;
    ChangesFacts(previous.statements, current.statements, n);
    forall u | u in UpdateOf(previous, current).statements
      ensures u.index < n && GoodKeys(current.citations, u.citationKeys) && (u.Metadata? || u.content != "")
    {
      var was, now := At(previous.statements, u.index), current.statements[u.index];
      if u.Append? {
        assert was.value.content + now.content[|was.value.content|..] == now.content;
      }
    }
  }

  /** All well-formed snapshots come through: every update is accepted, and the
      receiver ends with the last one. */
  lemma {:induction false} WellFormedRunIsAccepted(contents: seq<Snapshot>)
    requires forall c | c in contents :: WellFormed(c)
    ensures forall u | u in Run(contents).written :: Accepted(u)
  {
    if contents != [] {
      var before, content := contents[..|contents| - 1], contents[|contents| - 1];
      assert contents == before + [content];
      WellFormedRunIsAccepted(before);
      WellFormedIsAccepted(Run(before).lastContent, content);
    }
  }
}
