/**
 * The chat component's own state: whether the interview is shown, the
 * transcript, and the checklist projection that the effect re-derives
 * from the transcript whenever it changes.
 */
module ChatSession {
  import opened Wrappers
  import opened Categories
  import opened ChatMessages
  import opened RealEstateChecklist
  import opened ChatChecklist
  import opened ChatSuggestions
  import JsText

  /** The fixed greeting the start button seeds an empty conversation with: one sentence, in pieces. */
  const Greeting1: string := "Hi! I'm here to help you prepare "
  const Greeting2: string := "for your real estate agent interview. "
  const Greeting3: string := "Let's start by understanding "
  const Greeting4: string := "your situation better. "
  const Greeting5: string := "Are you currently working with "
  const Greeting6: string := "a real estate agent, "
  const Greeting7: string := "or are you looking to find one?"
  // The greeting is kept in pieces so that each can be checked for a
  // backtick on its own (the `GreetingNNoBacktick` lemmas below); one such
  // check over the whole literal is far more costly for the solver.
  const WelcomeText: string :=
    Greeting1 + Greeting2 + Greeting3 + Greeting4 + Greeting5 + Greeting6 + Greeting7

  /** The seeded assistant message: one text part, and the same text as its content. */
  const Welcome: Message := Message(Assistant, [Text(WelcomeText)], WelcomeText)

  /** The transcript after the start button: seeded when empty, untouched otherwise. */
  function Started(msgs: seq<Message>): seq<Message> {
    if |msgs| == 0 then [Welcome] else msgs
  }

  /**
   * Starting never loses or edits a message, always leaves at least one,
   * adds exactly the greeting to an empty transcript, and a second start
   * changes nothing.
   */
  lemma StartedShape(msgs: seq<Message>)
    ensures msgs != [] ==> Started(msgs) == msgs
    ensures msgs == [] ==> Started(msgs) == [Welcome]
    ensures |Started(msgs)| >= 1 && msgs <= Started(msgs)
    ensures Started(Started(msgs)) == Started(msgs)
  {
  }

  /** A text with no backtick holds no suggestion block. */
  lemma NoBacktickNoBlock(text: string)
    requires '`' !in text
    ensures FencedBody(text).None?
  {
    var found := JsText.IndexOf(text, Opener, 0);
    if found.Some? {
      JsText.OccursAtChar(text, Opener, found.value, 0);
      assert false;
    }
  }

  /**
   * An assistant message made of one text part leaves the walk where it
   * was, wherever it falls in the transcript: no item, no pending id.
   */
  lemma TextReplyNoItems(msgs: seq<Message>, t: string, later: seq<Message>)
    ensures Walk(msgs + [Message(Assistant, [Text(t)], t)]) == Walk(msgs)
    ensures Walk(msgs + [Message(Assistant, [Text(t)], t)] + later) == Walk(msgs + later)
  {
    var m := Message(Assistant, [Text(t)], t);
    assert m.parts[..0] == [];
    assert !Accepted(m.parts[0]);
    assert ScanParts(Walk(msgs), m.parts) == Walk(msgs);
    assert (msgs + [m])[..|msgs|] == msgs;
    FoldAppend(Initial, msgs + [m], later);
    FoldAppend(Initial, msgs, later);
  }

  /**
   * An assistant message made of one text part without a backtick offers
   * no quick replies while it is the latest assistant message, whatever
   * came before it and whatever user or system turns follow it.
   */
  lemma TextReplyNoSuggestions(msgs: seq<Message>, t: string, later: seq<Message>, parse: JsonParser)
    requires '`' !in t
    requires forall j :: 0 <= j < |later| ==> later[j].role != Assistant
    ensures Suggestions(msgs + [Message(Assistant, [Text(t)], t)] + later, parse) == []
  {
    var m := Message(Assistant, [Text(t)], t);
    NoBacktickNoBlock(t);
    SuggestionsFromLatest(msgs, m, later, parse);
    assert PartSuggestions(Text(t), parse).None?;
    assert m.parts[1..] == [];
    assert FirstSuggestions(m.parts, parse) == FirstSuggestions([], parse);
  }

  // Each piece of the greeting, checked on its own.
  lemma Greeting1NoBacktick() ensures '`' !in Greeting1 { }
  lemma Greeting2NoBacktick() ensures '`' !in Greeting2 { }
  lemma Greeting3NoBacktick() ensures '`' !in Greeting3 { }
  lemma Greeting4NoBacktick() ensures '`' !in Greeting4 { }
  lemma Greeting5NoBacktick() ensures '`' !in Greeting5 { }
  lemma Greeting6NoBacktick() ensures '`' !in Greeting6 { }
  lemma Greeting7NoBacktick() ensures '`' !in Greeting7 { }

  /** The greeting holds no backtick, so no suggestion block. */
  lemma WelcomeHasNoBacktick()
    ensures '`' !in WelcomeText
  {
    Greeting1NoBacktick(); Greeting2NoBacktick(); Greeting3NoBacktick(); Greeting4NoBacktick();
    Greeting5NoBacktick(); Greeting6NoBacktick(); Greeting7NoBacktick();
  }

  /**
   * A transcript holding only an assistant message of plain text without a
   * backtick has an empty checklist, nothing complete and no quick replies,
   * whatever the JSON parser does.
   */
  lemma OpeningProjection(t: string, parse: JsonParser)
    requires '`' !in t
    ensures Checklist([Message(Assistant, [Text(t)], t)]) == []
    ensures CompletedCategories(Checklist([Message(Assistant, [Text(t)], t)])) == []
    ensures Suggestions([Message(Assistant, [Text(t)], t)], parse) == []
  {
    var m := Message(Assistant, [Text(t)], t);
    var none: seq<Message> := [];
    assert [m] == none + [m] && [m] == none + [m] + none;
    TextReplyNoItems(none, t, none);
    TextReplyNoSuggestions(none, t, none, parse);
    CompletedEmpty(AllCategories);
  }

  /**
   * The greeting carries no directive and no suggestion block: a freshly
   * started interview has an empty checklist, nothing complete and no
   * quick replies, whatever the JSON parser does.
   */
  lemma WelcomeProjection(parse: JsonParser)
    ensures Checklist(Started([])) == []
    ensures CompletedCategories(Checklist(Started([]))) == []
    ensures Suggestions(Started([]), parse) == []
  {
    WelcomeHasNoBacktick();
    OpeningProjection(WelcomeText, parse);
  }

  lemma {:induction false} CompletedEmpty(cats: seq<string>)
    ensures CompletedOf(cats, []) == []
  {
    if cats != [] {
      CompletedEmpty(cats[..|cats| - 1]);
    }
  }

  class Chat {
    /** Whether the interview panel replaces the start screen. */
    var showInterview: bool
    /** The transcript, as the chat hook holds it. */
    var messages: seq<Message>
    /** The projection the effect publishes. */
    var checklist: seq<ChecklistItem>
    var completedCategories: seq<string>
    var isComplete: bool

    /** The projection is the derivation of the current transcript. */
    ghost predicate Valid()
      reads this
    {
      && checklist == Checklist(messages)
      && completedCategories == CompletedCategories(checklist)
      && (isComplete <==> forall c :: c in AllCategories ==> c in completedCategories)
    }

    /** A resumed conversation (one with messages) opens on the interview directly. */
    constructor (initialMessages: seq<Message>)
      ensures Valid()
      ensures messages == initialMessages
      ensures showInterview == (|initialMessages| > 0)
    {
      messages := initialMessages;
      showInterview := |initialMessages| > 0;
      var cl, done, all := DeriveChecklist(initialMessages);
      checklist, completedCategories, isComplete := cl, done, all;
    }

    /** The effect that runs whenever the transcript changes: the projection is derived afresh. */
    method Refresh()
      modifies this
      ensures Valid()
      ensures messages == old(messages) && showInterview == old(showInterview)
    {
      var cl, done, all := DeriveChecklist(messages);
      checklist, completedCategories, isComplete := cl, done, all;
    }

    /** The start button: show the interview, and seed the greeting only into an empty transcript. */
    method StartInterview()
      modifies this
      ensures showInterview
      ensures messages == Started(old(messages))
      ensures Valid()
    {
      showInterview := true;
      if |messages| == 0 {
        messages := [Welcome];
      }
      Refresh();
    }

    /** The quick replies offered for the current transcript. */
    method CurrentSuggestions(parse: JsonParser) returns (suggested: seq<string>)
      ensures suggested == Suggestions(messages, parse)
    {
      suggested := SelectSuggestions(messages, parse);
    }
  }
}
