/**
 * The derivation the chat runs on every transcript change: one pass over
 * the messages that collects `addQuestion` tool results as checklist
 * items, pairs the most recently accepted question, while it is
 * unanswered, with the next non-blank user reply, and then works out
 * which categories are complete.
 */
module ChatChecklist {
  import opened Wrappers
  import opened JsText
  import opened Categories
  import opened ChatMessages
  import opened RealEstateChecklist

  // ---------------------------------------------------------------------
  // The state of the walk

  /** A tool part the walk acts on: an `addQuestion` result with truthy question, explanation and category. */
  predicate Accepted(p: Part) {
    && p.Tool?
    && p.toolName == "addQuestion"
    && p.result.Some?
    && p.result.value.question != ""
    && p.result.value.explanation != ""
    && p.result.value.category != ""
  }

  function NewItem(r: ToolResult): ChecklistItem {
    ChecklistItem(r.id, r.category, r.question, r.explanation, None)
  }

  /** `items.find((i) => i.id === id)` finds something. */
  predicate HasId(items: seq<ChecklistItem>, id: string) {
    exists k :: 0 <= k < |items| && items[k].id == id
  }

  /** Push the result's item unless an item with its id is already there. */
  function AddNew(items: seq<ChecklistItem>, r: ToolResult): seq<ChecklistItem> {
    if HasId(items, r.id) then items else items + [NewItem(r)]
  }

  /** The walk's variables: the items so far, the answers record, and the pending question id. */
  datatype WalkState = WalkState(items: seq<ChecklistItem>, answers: map<string, string>, pending: Option<string>)

  const Initial := WalkState([], map[], None)

  function StepPart(s: WalkState, p: Part): WalkState {
    if Accepted(p) then
      WalkState(AddNew(s.items, p.result.value), s.answers, Some(p.result.value.id))
    else s
  }

  /** The inner loop over one assistant message's parts. */
  function ScanParts(s: WalkState, parts: seq<Part>): WalkState {
    if parts == [] then s else StepPart(ScanParts(s, parts[..|parts| - 1]), parts[|parts| - 1])
  }

  /** A user turn: a non-blank reply while a (truthy) id is pending becomes that id's answer. */
  function AnswerStep(s: WalkState, content: string): WalkState {
    var t := Trim(content);
    if s.pending.Some? && s.pending.value != "" && t != "" then
      WalkState(s.items, s.answers[s.pending.value := t], None)
    else s
  }

  function StepMessage(s: WalkState, m: Message): WalkState {
    if m.role == Assistant then ScanParts(s, m.parts)
    else if m.role == User then AnswerStep(s, m.content)
    else s
  }

  /** The outer loop over the messages, from state `s`. */
  function Fold(s: WalkState, msgs: seq<Message>): WalkState {
    if msgs == [] then s else StepMessage(Fold(s, msgs[..|msgs| - 1]), msgs[|msgs| - 1])
  }

  function Walk(msgs: seq<Message>): WalkState {
    Fold(Initial, msgs)
  }

  /** The answer-attaching `map`: each item takes the record's entry for its id, if any. */
  function Attach(items: seq<ChecklistItem>, answers: map<string, string>): seq<ChecklistItem> {
    seq(|items|, k requires 0 <= k < |items| =>
      items[k].(answer := if items[k].id in answers then Some(answers[items[k].id]) else None))
  }

  /** The checklist the chat publishes for a transcript. */
  function Checklist(msgs: seq<Message>): seq<ChecklistItem> {
    var s := Walk(msgs);
    Attach(s.items, s.answers)
  }

  /** `checklist.some((item) => item.category === c && item.answer)`. */
  predicate AnyAnswered(checklist: seq<ChecklistItem>, c: string) {
    exists k :: 0 <= k < |checklist| && checklist[k].category == c && HasAnswer(checklist[k])
  }

  /** The categories of `cats` that have an answered item, in the order of `cats`. */
  function CompletedOf(cats: seq<string>, checklist: seq<ChecklistItem>): seq<string> {
    if cats == [] then []
    else
      var c := cats[|cats| - 1];
      CompletedOf(cats[..|cats| - 1], checklist) + (if AnyAnswered(checklist, c) then [c] else [])
  }

  function CompletedCategories(checklist: seq<ChecklistItem>): seq<string> {
    CompletedOf(AllCategories, checklist)
  }

  // ---------------------------------------------------------------------
  // The derivation as the chat runs it

  /**
   * The transcript pass, the answer attachment and the completion scan.
   * `isComplete` compares lengths, as the source does; it means that every
   * one of the eight categories is complete.
   */
  method DeriveChecklist(messages: seq<Message>)
    returns (checklist: seq<ChecklistItem>, completed: seq<string>, isComplete: bool)
    ensures checklist == Checklist(messages)
    ensures completed == CompletedCategories(checklist)
    ensures isComplete <==> forall c :: c in AllCategories ==> c in completed
  {
    var items: seq<ChecklistItem> := [];
    var answers: map<string, string> := map[];
    var pending: Option<string> := None;
    for i := 0 to |messages|
      invariant WalkState(items, answers, pending) == Walk(messages[..i])
    {
      var msg := messages[i];
      assert messages[..i + 1][..i] == messages[..i];
      if msg.role == Assistant {
        for j := 0 to |msg.parts|
          invariant WalkState(items, answers, pending) == ScanParts(Walk(messages[..i]), msg.parts[..j])
        {
          var part := msg.parts[j];
          assert msg.parts[..j + 1][..j] == msg.parts[..j];
          if part.Tool? {
            if part.toolName == "addQuestion" && part.result.Some?
              && part.result.value.question != "" && part.result.value.explanation != ""
              && part.result.value.category != ""
            {
              var r := part.result.value;
              pending := Some(r.id);
              if !HasId(items, r.id) {
                items := items + [ChecklistItem(r.id, r.category, r.question, r.explanation, None)];
              }
            }
          }
        }
        assert msg.parts[..|msg.parts|] == msg.parts;
      }
      if pending.Some? && pending.value != "" && msg.role == User {
        var t := Trim(msg.content);
        if |t| > 0 {
          answers := answers[pending.value := t];
          pending := None;
        }
      }
    }
    assert messages[..|messages|] == messages;
    checklist := Attach(items, answers);
    completed := [];
    for c := 0 to |AllCategories|
      invariant completed == CompletedOf(AllCategories[..c], checklist)
    {
      assert AllCategories[..c + 1][..c] == AllCategories[..c];
      if AnyAnswered(checklist, AllCategories[c]) {
        completed := completed + [AllCategories[c]];
      }
    }
    assert AllCategories[..|AllCategories|] == AllCategories;
    isComplete := |completed| == |AllCategories|;
    IsCompleteIff(checklist);
  }

  // ---------------------------------------------------------------------
  // Completion

  /** A category is complete exactly when it is one of the eight and one of its items is answered. */
  lemma {:induction false} CompletedMembers(cats: seq<string>, checklist: seq<ChecklistItem>, c: string)
    ensures c in CompletedOf(cats, checklist) <==> c in cats && AnyAnswered(checklist, c)
  {
    if cats != [] {
      var init := cats[..|cats| - 1];
      CompletedMembers(init, checklist, c);
      assert cats == init + [cats[|cats| - 1]];
    }
  }

  /** All of `cats` are kept exactly when every one of them has an answered item. */
  lemma {:induction false} CompletedLength(cats: seq<string>, checklist: seq<ChecklistItem>)
    ensures |CompletedOf(cats, checklist)| <= |cats|
    ensures |CompletedOf(cats, checklist)| == |cats| <==> forall k :: 0 <= k < |cats| ==> AnyAnswered(checklist, cats[k])
  {
    if cats != [] {
      var init := cats[..|cats| - 1];
      CompletedLength(init, checklist);
      if forall k :: 0 <= k < |cats| ==> AnyAnswered(checklist, cats[k]) {
        assert forall k :: 0 <= k < |init| ==> AnyAnswered(checklist, init[k]) by {
          forall k | 0 <= k < |init| ensures AnyAnswered(checklist, init[k]) {
            assert init[k] == cats[k];
          }
        }
      }
      if |CompletedOf(cats, checklist)| == |cats| {
        forall k | 0 <= k < |cats| ensures AnyAnswered(checklist, cats[k]) {
          if k < |init| { assert init[k] == cats[k]; }
        }
      }
    }
  }

  /** The length comparison the source uses is set equality with the eight categories. */
  lemma IsCompleteIff(checklist: seq<ChecklistItem>)
    ensures |CompletedCategories(checklist)| == |AllCategories|
        <==> forall c :: c in AllCategories ==> c in CompletedCategories(checklist)
  {
    CompletedLength(AllCategories, checklist);
    forall c | c in AllCategories {
      CompletedMembers(AllCategories, checklist, c);
    }
    if forall c :: c in AllCategories ==> c in CompletedCategories(checklist) {
      forall k | 0 <= k < |AllCategories| ensures AnyAnswered(checklist, AllCategories[k]) {
        assert AllCategories[k] in AllCategories;
      }
    }
  }

  /** The index of the first occurrence of `c` in `xs`. */
  function Position(xs: seq<string>, c: string): (p: nat)
    requires c in xs
    ensures p < |xs| && xs[p] == c
  {
    var init := xs[..|xs| - 1];
    if c in init then Position(init, c) else |xs| - 1
  }

  /** Every element of `r` is in `cats`, and `r` lists them in the order of their first positions there. */
  predicate InOrderOf(r: seq<string>, cats: seq<string>) {
    forall i, j :: 0 <= i < j < |r| ==> r[i] in cats && r[j] in cats && Position(cats, r[i]) < Position(cats, r[j])
  }

  /** Completed categories keep the order of `cats`, so none appears twice. */
  lemma {:induction false} CompletedOrdered(cats: seq<string>, checklist: seq<ChecklistItem>)
    requires Distinct(cats)
    ensures InOrderOf(CompletedOf(cats, checklist), cats)
  {
    if cats != [] {
      var init := cats[..|cats| - 1];
      var c := cats[|cats| - 1];
      assert Distinct(init);
      CompletedOrdered(init, checklist);
      var prev := CompletedOf(init, checklist);
      forall x | x in prev ensures x in init && Position(cats, x) == Position(init, x) < |init| {
        CompletedMembers(init, checklist, x);
      }
      assert c !in init;
      var r := CompletedOf(cats, checklist);
      forall i, j | 0 <= i < j < |r|
        ensures r[i] in cats && r[j] in cats && Position(cats, r[i]) < Position(cats, r[j])
      {
        assert r[i] == prev[i] && r[i] in prev;
        if j < |prev| {
          assert r[j] == prev[j] && r[j] in prev;
          assert Position(init, prev[i]) < Position(init, prev[j]);
        } else {
          assert r[j] == c;
          assert Position(cats, c) == |init|;
        }
      }
    }
  }
  /** The published completed list follows the order of the eight names, none twice. */
  lemma CompletedCategoriesOrdered(checklist: seq<ChecklistItem>)
    ensures InOrderOf(CompletedCategories(checklist), AllCategories)
    ensures Distinct(CompletedCategories(checklist))
  {
    AllCategoriesDistinct();
    CompletedOrdered(AllCategories, checklist);
  }


  // ---------------------------------------------------------------------
  // Replay

  /** Walking a transcript in two pieces ends in the same state as walking it at once. */
  lemma {:induction false} FoldAppend(s: WalkState, xs: seq<Message>, ys: seq<Message>)
    ensures Fold(s, xs + ys) == Fold(Fold(s, xs), ys)
  {
    if ys == [] {
      assert xs + ys == xs;
    } else {
      var init := ys[..|ys| - 1];
      assert (xs + ys)[..|xs + ys| - 1] == xs + init;
      assert (xs + ys)[|xs + ys| - 1] == ys[|ys| - 1];
      FoldAppend(s, xs, init);
    }
  }

  // ---------------------------------------------------------------------
  // Which parts become items

  /** The results of the accepted parts, in order. */
  function AcceptedIn(parts: seq<Part>): seq<ToolResult> {
    if parts == [] then []
    else
      var p := parts[|parts| - 1];
      AcceptedIn(parts[..|parts| - 1]) + (if Accepted(p) then [p.result.value] else [])
  }

  /** The results of the accepted parts of all assistant messages, in transcript order. */
  function AcceptedResults(msgs: seq<Message>): seq<ToolResult> {
    if msgs == [] then []
    else
      var m := msgs[|msgs| - 1];
      AcceptedResults(msgs[..|msgs| - 1]) + (if m.role == Assistant then AcceptedIn(m.parts) else [])
  }

  /** `AddNew` for each result in turn. */
  function AddAll(items: seq<ChecklistItem>, rs: seq<ToolResult>): seq<ChecklistItem> {
    if rs == [] then items else AddNew(AddAll(items, rs[..|rs| - 1]), rs[|rs| - 1])
  }

  lemma {:induction false} AddAllAppend(items: seq<ChecklistItem>, xs: seq<ToolResult>, ys: seq<ToolResult>)
    ensures AddAll(items, xs + ys) == AddAll(AddAll(items, xs), ys)
  {
    if ys == [] {
      assert xs + ys == xs;
    } else {
      var init := ys[..|ys| - 1];
      assert (xs + ys)[..|xs + ys| - 1] == xs + init;
      assert (xs + ys)[|xs + ys| - 1] == ys[|ys| - 1];
      AddAllAppend(items, xs, init);
    }
  }

  /**
   * One assistant message: its accepted parts, and only those, are added
   * by id; answers are untouched; and the pending id is that of the LAST
   * accepted part (duplicates included), or unchanged when there is none.
   */
  lemma {:induction false} ScanPartsEffect(s: WalkState, parts: seq<Part>)
    ensures ScanParts(s, parts).items == AddAll(s.items, AcceptedIn(parts))
    ensures ScanParts(s, parts).answers == s.answers
    ensures ScanParts(s, parts).pending
         == if AcceptedIn(parts) == [] then s.pending else Some(AcceptedIn(parts)[|AcceptedIn(parts)| - 1].id)
  {
    if parts != [] {
      var init := parts[..|parts| - 1];
      var p := parts[|parts| - 1];
      ScanPartsEffect(s, init);
      if Accepted(p) {
        var rs := AcceptedIn(init) + [p.result.value];
        assert AcceptedIn(parts) == rs;
        assert rs[..|rs| - 1] == AcceptedIn(init);
      } else {
        assert AcceptedIn(parts) == AcceptedIn(init) + [] == AcceptedIn(init);
      }
    }
  }

  /** The walk's items are the accepted results of the assistant messages, added by id, in order. */
  lemma {:induction false} WalkItems(msgs: seq<Message>)
    ensures Walk(msgs).items == AddAll([], AcceptedResults(msgs))
  {
    if msgs != [] {
      var init := msgs[..|msgs| - 1];
      var m := msgs[|msgs| - 1];
      WalkItems(init);
      if m.role == Assistant {
        ScanPartsEffect(Walk(init), m.parts);
        AddAllAppend([], AcceptedResults(init), AcceptedIn(m.parts));
      } else {
        assert AcceptedResults(msgs) == AcceptedResults(init) + [] == AcceptedResults(init);
      }
    }
  }

  /** No two items share an id. */
  predicate DistinctIds(items: seq<ChecklistItem>) {
    forall i, j :: 0 <= i < j < |items| ==> items[i].id != items[j].id
  }

  /** `rs[k]` is the first result carrying its id. */
  predicate IsFirst(rs: seq<ToolResult>, k: int) {
    0 <= k < |rs| && forall j :: 0 <= j < k ==> rs[j].id != rs[k].id
  }

  /** Some result carries `id`. */
  predicate HasResultId(rs: seq<ToolResult>, id: string) {
    exists k :: 0 <= k < |rs| && rs[k].id == id
  }

  lemma {:induction false} DedupeIds(rs: seq<ToolResult>)
    ensures DistinctIds(AddAll([], rs))
    ensures forall id :: HasId(AddAll([], rs), id) <==> HasResultId(rs, id)
  {
    if rs != [] {
      var init := rs[..|rs| - 1];
      var r := rs[|rs| - 1];
      DedupeIds(init);
      var d := AddAll([], init);
      forall id ensures HasId(AddAll([], rs), id) <==> (HasId(d, id) || id == r.id) {
        if !HasId(d, r.id) {
          var d' := d + [NewItem(r)];
          assert d'[|d|].id == r.id;
          if HasId(d', id) {
            var k :| 0 <= k < |d'| && d'[k].id == id;
            if k < |d| { assert d[k].id == id; }
          }
          if HasId(d, id) {
            var k :| 0 <= k < |d| && d[k].id == id;
            assert d'[k].id == id;
          }
        }
      }
      forall id ensures HasResultId(rs, id) <==> (HasResultId(init, id) || id == r.id) {
        if HasResultId(rs, id) {
          var k :| 0 <= k < |rs| && rs[k].id == id;
          if k < |init| { assert init[k].id == id; }
        }
        if HasResultId(init, id) {
          var k :| 0 <= k < |init| && init[k].id == id;
          assert rs[k].id == id;
        }
      }
    }
  }

  /** The first result carrying an id is listed as an item. */
  lemma {:induction false} DedupeFirstIn(rs: seq<ToolResult>, k: int)
    requires IsFirst(rs, k)
    ensures NewItem(rs[k]) in AddAll([], rs)
  {
    var init := rs[..|rs| - 1];
    var r := rs[|rs| - 1];
    var d := AddAll([], init);
    AddAllGrows(d, [r]);
    assert AddAll(d, [r]) == AddNew(AddAll(d, []), r) == AddAll([], rs);
    if k < |init| {
      assert IsFirst(init, k) && init[k] == rs[k];
      DedupeFirstIn(init, k);
    } else {
      DedupeIds(init);
      assert !HasResultId(init, r.id);
      assert !HasId(d, r.id);
    }
  }

  lemma {:induction false} DedupeFromFirst(rs: seq<ToolResult>, x: ChecklistItem)
    requires x in AddAll([], rs)
    ensures exists k :: IsFirst(rs, k) && x == NewItem(rs[k])
  {
    assert rs != [];
    var init := rs[..|rs| - 1];
    var r := rs[|rs| - 1];
    var d := AddAll([], init);
    assert AddAll([], rs) == AddNew(d, r);
    if x in d {
      DedupeFromFirst(init, x);
      var k :| IsFirst(init, k) && x == NewItem(init[k]);
      forall j | 0 <= j <= k ensures rs[j] == init[j] { }
      assert IsFirst(rs, k);
    } else {
      assert x == NewItem(r) && !HasId(d, r.id);
      DedupeIds(init);
      assert !HasResultId(init, r.id);
      forall j | 0 <= j < |init| ensures rs[j].id != r.id {
        assert rs[j] == init[j];
      }
      assert IsFirst(rs, |init|);
    }
  }

  /**
   * The first result with a given id is the one whose item appears, and
   * every item comes from the first result with its id: a repeated id
   * never adds an item or changes the fields of the first one.
   */
  lemma DedupeFirstWins(rs: seq<ToolResult>)
    ensures forall k :: IsFirst(rs, k) ==> NewItem(rs[k]) in AddAll([], rs)
    ensures forall x :: x in AddAll([], rs) ==> exists k :: IsFirst(rs, k) && x == NewItem(rs[k])
  {
    forall k | IsFirst(rs, k) ensures NewItem(rs[k]) in AddAll([], rs) {
      DedupeFirstIn(rs, k);
    }
    forall x | x in AddAll([], rs) ensures exists k :: IsFirst(rs, k) && x == NewItem(rs[k]) {
      DedupeFromFirst(rs, x);
    }
  }

  /** `x` is listed at an earlier position than `y`. */
  predicate ListedBefore(items: seq<ChecklistItem>, x: ChecklistItem, y: ChecklistItem) {
    exists p1, p2 :: 0 <= p1 < p2 < |items| && items[p1] == x && items[p2] == y
  }

  /**
   * Items come in order of first appearance: the item of an earlier first
   * result is listed before the item of a later one, whether the two come
   * from different messages or from parts of the same message.
   */
  lemma DedupeFirstOrder(rs: seq<ToolResult>, k1: int, k2: int)
    requires IsFirst(rs, k1) && IsFirst(rs, k2) && k1 < k2
    ensures ListedBefore(AddAll([], rs), NewItem(rs[k1]), NewItem(rs[k2]))
  {
    var items := AddAll([], rs);
    var pre, post := rs[..k2], rs[k2..];
    assert rs == pre + post;
    AddAllAppend([], pre, post);
    AddAllGrows(AddAll([], pre), post);
    var d := AddAll([], pre);
    assert d <= items;
    assert IsFirst(pre, k1) && pre[k1] == rs[k1];
    DedupeFirstIn(pre, k1);
    var p1 :| 0 <= p1 < |d| && d[p1] == NewItem(rs[k1]);
    DedupeIds(pre);
    assert !HasResultId(pre, rs[k2].id);
    DedupeFirstIn(rs, k2);
    assert forall q :: 0 <= q < |d| ==> items[q].id != rs[k2].id;
    var p2 :| 0 <= p2 < |items| && items[p2] == NewItem(rs[k2]);
    assert |d| <= p2;
    assert items[p1] == d[p1];
  }

  /**
   * The checklist items of a transcript: distinct ids, and exactly the
   * first accepted `addQuestion` result of each id, with its fields.
   */
  lemma ChecklistFromDirectives(msgs: seq<Message>)
    ensures var items := Walk(msgs).items; var rs := AcceptedResults(msgs);
      && DistinctIds(items)
      && (forall id :: HasId(items, id) <==> HasResultId(rs, id))
      && (forall k :: IsFirst(rs, k) ==> NewItem(rs[k]) in items)
      && (forall x :: x in items ==> exists k :: IsFirst(rs, k) && x == NewItem(rs[k]))
      && (forall k1, k2 :: IsFirst(rs, k1) && IsFirst(rs, k2) && k1 < k2 ==>
            ListedBefore(items, NewItem(rs[k1]), NewItem(rs[k2])))
  {
    var rs := AcceptedResults(msgs);
    WalkItems(msgs);
    DedupeIds(rs);
    DedupeFirstWins(rs);
    forall k1, k2 | IsFirst(rs, k1) && IsFirst(rs, k2) && k1 < k2
      ensures ListedBefore(AddAll([], rs), NewItem(rs[k1]), NewItem(rs[k2]))
    {
      DedupeFirstOrder(rs, k1, k2);
    }
  }

  lemma {:induction false} AddAllGrows(items: seq<ChecklistItem>, rs: seq<ToolResult>)
    ensures items <= AddAll(items, rs)
  {
    if rs != [] {
      AddAllGrows(items, rs[..|rs| - 1]);
    }
  }

  lemma {:induction false} FoldGrows(s: WalkState, ys: seq<Message>)
    ensures s.items <= Fold(s, ys).items
    ensures s.answers.Keys <= Fold(s, ys).answers.Keys
  {
    if ys != [] {
      var t := Fold(s, ys[..|ys| - 1]);
      var m := ys[|ys| - 1];
      FoldGrows(s, ys[..|ys| - 1]);
      if m.role == Assistant {
        ScanPartsEffect(t, m.parts);
        AddAllGrows(t.items, AcceptedIn(m.parts));
      }
    }
  }

  /**
   * Appending messages only appends items: the items of a transcript are a
   * prefix of the items of any extension, and the published checklist
   * keeps each of them in place, with the same id, category, question
   * and explanation.
   */
  lemma ChecklistPrefix(msgs: seq<Message>, more: seq<Message>)
    ensures Walk(msgs).items <= Walk(msgs + more).items
    ensures |Checklist(msgs)| <= |Checklist(msgs + more)|
    ensures forall k :: 0 <= k < |Checklist(msgs)| ==>
      Checklist(msgs)[k].(answer := None) == Checklist(msgs + more)[k].(answer := None)
  {
    FoldAppend(Initial, msgs, more);
    FoldGrows(Walk(msgs), more);
  }

  // ---------------------------------------------------------------------
  // Answers

  /** The facts the walk keeps at every message boundary. */
  ghost predicate Inv(s: WalkState) {
    && DistinctIds(s.items)
    && AnswersWellFormed(s.answers)
    && (forall id :: id in s.answers ==> HasId(s.items, id))
    && (s.pending.Some? ==> HasId(s.items, s.pending.value))
  }

  /** Every stored answer is keyed by a non-empty id and is a non-empty, trimmed string. */
  ghost predicate AnswersWellFormed(answers: map<string, string>) {
    forall id :: id in answers ==> id != "" && answers[id] != "" && Trim(answers[id]) == answers[id]
  }

  lemma AnswerStepInv(s: WalkState, content: string)
    requires Inv(s)
    ensures Inv(AnswerStep(s, content))
  {
    var t := Trim(content);
    if s.pending.Some? && s.pending.value != "" && t != "" {
      TrimIdempotent(content);
      var a := s.answers[s.pending.value := t];
      forall id | id in a ensures id != "" && a[id] != "" && Trim(a[id]) == a[id] && HasId(s.items, id) {
        if id != s.pending.value {
          assert a[id] == s.answers[id];
        }
      }
    }
  }

  lemma {:induction false} AddNewKeeps(items: seq<ChecklistItem>, r: ToolResult)
    requires DistinctIds(items)
    ensures DistinctIds(AddNew(items, r))
    ensures HasId(AddNew(items, r), r.id)
    ensures forall id :: HasId(items, id) ==> HasId(AddNew(items, r), id)
  {
    var d := AddNew(items, r);
    assert items <= d;
    if !HasId(items, r.id) {
      assert d[|items|].id == r.id;
    }
    forall id | HasId(items, id) ensures HasId(d, id) {
      var k :| 0 <= k < |items| && items[k].id == id;
      assert d[k] == items[k];
    }
  }

  lemma {:induction false} ScanPartsInv(s: WalkState, parts: seq<Part>)
    requires Inv(s)
    ensures Inv(ScanParts(s, parts))
  {
    if parts != [] {
      var t := ScanParts(s, parts[..|parts| - 1]);
      ScanPartsInv(s, parts[..|parts| - 1]);
      var p := parts[|parts| - 1];
      if Accepted(p) {
        AddNewKeeps(t.items, p.result.value);
      }
    }
  }

  /** Stored answers are non-empty and trimmed, keyed by ids of items; the pending id names an item. */
  lemma {:induction false} WalkInv(msgs: seq<Message>)
    ensures Inv(Walk(msgs))
  {
    if msgs != [] {
      var s := Walk(msgs[..|msgs| - 1]);
      var m := msgs[|msgs| - 1];
      WalkInv(msgs[..|msgs| - 1]);
      if m.role == Assistant {
        ScanPartsInv(s, m.parts);
      } else if m.role == User {
        AnswerStepInv(s, m.content);
      }
    }
  }

  /**
   * A user turn: a reply that trims to non-empty while a (truthy) id is
   * pending stores the trimmed text under that id and clears the pending
   * id; any other user turn, blank or whitespace-only in particular,
   * changes nothing. Items are untouched either way.
   */
  lemma UserTurnEffect(msgs: seq<Message>, m: Message)
    requires m.role == User
    ensures var s, s' := Walk(msgs), Walk(msgs + [m]);
      && s'.items == s.items
      && (if s.pending.Some? && s.pending.value != "" && Trim(m.content) != "" then
            s'.answers == s.answers[s.pending.value := Trim(m.content)] && s'.pending.None?
          else s' == s)
  {
    FoldAppend(Initial, msgs, [m]);
    assert [m][..0] == [];
  }

  /** Answers are never removed: every id answered in a transcript is answered in each of its extensions. */
  lemma AnswersKept(msgs: seq<Message>, more: seq<Message>)
    ensures Walk(msgs).answers.Keys <= Walk(msgs + more).answers.Keys
  {
    FoldAppend(Initial, msgs, more);
    FoldGrows(Walk(msgs), more);
  }

  /** The state after one more message. */
  lemma WalkSnoc(msgs: seq<Message>, k: nat)
    requires k < |msgs|
    ensures Walk(msgs[..k + 1]) == StepMessage(Walk(msgs[..k]), msgs[k])
  {
    assert msgs[..k + 1][..k] == msgs[..k];
  }

  /** Message `i` is a non-blank user reply arriving while the (truthy) id `id` is pending. */
  ghost predicate RepliesTo(msgs: seq<Message>, i: int, id: string) {
    && 0 <= i < |msgs|
    && msgs[i].role == User
    && Trim(msgs[i].content) != ""
    && id != ""
    && Walk(msgs[..i]).pending == Some(id)
  }

  /** What one message does to the answer stored for `id`. */
  lemma StepAnswerAt(s: WalkState, m: Message, id: string)
    ensures var a := StepMessage(s, m).answers;
      if m.role == User && Trim(m.content) != "" && id != "" && s.pending == Some(id) then
        id in a && a[id] == Trim(m.content)
      else
        (id in a <==> id in s.answers) && (id in s.answers ==> a[id] == s.answers[id])
  {
    if m.role == Assistant {
      ScanPartsEffect(s, m.parts);
      assert StepMessage(s, m).answers == s.answers;
    } else if m.role == User {
      assert StepMessage(s, m) == AnswerStep(s, m.content);
    } else {
      assert StepMessage(s, m) == s;
    }
  }

  lemma RepliesToPrefix(msgs: seq<Message>, i: int, id: string)
    requires msgs != [] && 0 <= i < |msgs| - 1
    ensures RepliesTo(msgs, i, id) <==> RepliesTo(msgs[..|msgs| - 1], i, id)
  {
    var init := msgs[..|msgs| - 1];
    assert init[..i] == msgs[..i];
    assert msgs[i] == init[i];
  }

  lemma StepRecords(msgs: seq<Message>, i: int, id: string)
    requires RepliesTo(msgs, i, id)
    ensures id in Walk(msgs[..i + 1]).answers
  {
    WalkSnoc(msgs, i);
    StepAnswerAt(Walk(msgs[..i]), msgs[i], id);
  }

  lemma AnswerKeptAfter(msgs: seq<Message>, k: nat, id: string)
    requires k <= |msgs| && id in Walk(msgs[..k]).answers
    ensures id in Walk(msgs).answers
  {
    AnswersKept(msgs[..k], msgs[k..]);
    assert msgs[..k] + msgs[k..] == msgs;
  }

  /** A reply while `id` is pending records an answer for `id` that later messages never remove. */
  lemma ReplyRecorded(msgs: seq<Message>, i: int, id: string)
    requires RepliesTo(msgs, i, id)
    ensures id in Walk(msgs).answers
  {
    StepRecords(msgs, i, id);
    AnswerKeptAfter(msgs, i + 1, id);
  }

  /** Message `i` replies while `id` is pending, and no later message does. */
  ghost predicate LastReplyTo(msgs: seq<Message>, i: int, id: string) {
    RepliesTo(msgs, i, id) && forall j :: i < j < |msgs| ==> !RepliesTo(msgs, j, id)
  }

  lemma LastReplyExtends(msgs: seq<Message>, i: int, id: string)
    requires msgs != [] && i < |msgs| - 1
    requires LastReplyTo(msgs[..|msgs| - 1], i, id)
    requires !RepliesTo(msgs, |msgs| - 1, id)
    ensures LastReplyTo(msgs, i, id)
  {
    var init := msgs[..|msgs| - 1];
    RepliesToPrefix(msgs, i, id);
    forall j | i < j < |msgs| - 1 ensures !RepliesTo(msgs, j, id) {
      assert !RepliesTo(init, j, id);
      RepliesToPrefix(msgs, j, id);
    }
  }

  /** A stored answer is the trimmed text of the last reply that arrived while its id was pending. */
  lemma {:induction false} AnswerFromLastReply(msgs: seq<Message>, id: string)
    requires id in Walk(msgs).answers
    ensures exists i :: LastReplyTo(msgs, i, id) && Walk(msgs).answers[id] == Trim(msgs[i].content)
  {
    var init := msgs[..|msgs| - 1];
    var n := |init|;
    var s := Walk(init);
    StepAnswerAt(s, msgs[n], id);
    assert msgs[..n] == init;
    if RepliesTo(msgs, n, id) {
      assert LastReplyTo(msgs, n, id);
      assert Walk(msgs).answers[id] == Trim(msgs[n].content);
    } else {
      AnswerFromLastReply(init, id);
      var i :| LastReplyTo(init, i, id) && s.answers[id] == Trim(init[i].content);
      LastReplyExtends(msgs, i, id);
      assert msgs[i] == init[i];
      assert Walk(msgs).answers[id] == Trim(msgs[i].content);
    }
  }

  /**
   * An id has a recorded answer exactly when some non-blank user reply
   * arrived while it was pending, and the answer is the trimmed text of
   * the LAST such reply: a later reply overwrites an earlier one.
   */
  lemma AnswerIsLastReply(msgs: seq<Message>, id: string)
    ensures id in Walk(msgs).answers <==> exists i :: RepliesTo(msgs, i, id)
    ensures id in Walk(msgs).answers ==>
      exists i :: LastReplyTo(msgs, i, id) && Walk(msgs).answers[id] == Trim(msgs[i].content)
  {
    if exists i :: RepliesTo(msgs, i, id) {
      var i :| RepliesTo(msgs, i, id);
      ReplyRecorded(msgs, i, id);
    }
    if id in Walk(msgs).answers {
      AnswerFromLastReply(msgs, id);
    }
  }

  /**
   * An item's published answer is present exactly when a non-blank user
   * reply arrived while its id was pending; it is then the trimmed text of
   * the last such reply, and it is non-empty. An item whose id was never
   * pending at a reply has no answer.
   */
  lemma ChecklistAnswer(msgs: seq<Message>, k: nat)
    requires k < |Checklist(msgs)|
    ensures var x := Checklist(msgs)[k];
      && (x.answer.Some? <==> exists i :: RepliesTo(msgs, i, x.id))
      && (x.answer.Some? ==> HasAnswer(x))
      && (x.answer.Some? ==> exists i :: LastReplyTo(msgs, i, x.id) && x.answer.value == Trim(msgs[i].content))
  {
    var x := Checklist(msgs)[k];
    WalkInv(msgs);
    AnswerIsLastReply(msgs, x.id);
  }

  // ---------------------------------------------------------------------
  // Completion over time

  /** An item answered for a transcript is still answered, at the same place, in every extension. */
  lemma AnsweredPersists(msgs: seq<Message>, more: seq<Message>, k: nat)
    requires k < |Checklist(msgs)| && HasAnswer(Checklist(msgs)[k])
    ensures k < |Checklist(msgs + more)|
    ensures HasAnswer(Checklist(msgs + more)[k])
    ensures Checklist(msgs + more)[k].category == Checklist(msgs)[k].category
  {
    var s, s' := Walk(msgs), Walk(msgs + more);
    var id := s.items[k].id;
    assert id in s.answers;
    ChecklistPrefix(msgs, more);
    assert s'.items[k] == s.items[k];
    AnswersKept(msgs, more);
    StoredAnswerNonEmpty(msgs + more, id);
    assert Checklist(msgs + more)[k].answer == Some(s'.answers[id]);
  }

  lemma StoredAnswerNonEmpty(msgs: seq<Message>, id: string)
    requires id in Walk(msgs).answers
    ensures Walk(msgs).answers[id] != ""
  {
    WalkInv(msgs);
  }

  /** A category complete for a transcript stays complete for every extension of it. */
  lemma CompletedMonotone(msgs: seq<Message>, more: seq<Message>, c: string)
    requires c in CompletedCategories(Checklist(msgs))
    ensures c in CompletedCategories(Checklist(msgs + more))
  {
    var cl := Checklist(msgs);
    var cl' := Checklist(msgs + more);
    CompletedMembers(AllCategories, cl, c);
    var k :| 0 <= k < |cl| && cl[k].category == c && HasAnswer(cl[k]);
    AnsweredPersists(msgs, more, k);
    CompletedMembers(AllCategories, cl', c);
  }
}
