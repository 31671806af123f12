/**
 * The quick-reply suggestions: the latest assistant message is searched,
 * part by part, for a code block labelled `suggestedResponses` whose body
 * parses as a JSON array.
 */
module ChatSuggestions {
  import opened Wrappers
  import opened JsText
  import opened ChatMessages

  /** What `JSON.parse` produced, as far as `Array.isArray` can tell. */
  datatype Json = JsonArray(elements: seq<string>) | JsonOther

  /**
   * `JSON.parse` is supplied by the caller: `None` stands for a throw,
   * which the selector catches and ignores.
   */
  type JsonParser = string -> Option<Json>

  const Opener: string := "```suggestedResponses"
  const Fence: string := "```"

  /**
   * The capture group of /```suggestedResponses\s*([\s\S]*?)```/: the
   * first opener, then as much whitespace as there is, then everything up
   * to the next fence. `FencedBodyIsLeftmostMatch` shows that this is the
   * leftmost, then shortest, match of the regular expression.
   */
  function FencedBody(text: string): Option<string> {
    match IndexOf(text, Opener, 0)
    case None => None
    case Some(i) =>
      var j := SkipWhitespace(text, i + |Opener|);
      match IndexOf(text, Fence, j)
      case None => None
      case Some(k) => Some(text[j..k])
  }

  /** Where the body of a block opened at `i` begins: after the opener and the whitespace following it. */
  function BodyStart(text: string, i: int): int
    requires OccursAt(text, Opener, i)
  {
    SkipWhitespace(text, i + |Opener|)
  }

  /**
   * The regular expression matches with its opener at `i` and its closing
   * fence at `k`. Backing off the greedy `\s*` cannot help, since a fence
   * does not start with whitespace (`RegexMatchAnyWhitespace`).
   */
  predicate RegexMatch(text: string, i: int, k: int) {
    OccursAt(text, Opener, i) && BodyStart(text, i) <= k && OccursAt(text, Fence, k)
  }

  /**
   * Whatever amount of whitespace `\s*` takes after an opener, a fence
   * after it gives a match: backing off the greedy run loses none.
   */
  lemma RegexMatchAnyWhitespace(text: string, i: int, w: int, k: int)
    requires OccursAt(text, Opener, i) && i + |Opener| <= w <= k && OccursAt(text, Fence, k)
    requires forall p :: i + |Opener| <= p < w ==> IsWhitespace(text[p])
    ensures RegexMatch(text, i, k)
  {
    OccursAtChar(text, Fence, k, 0);
  }

  /** An opener begins with a fence. */
  lemma OpenerHasFence(text: string, i: int)
    requires OccursAt(text, Opener, i)
    ensures OccursAt(text, Fence, i)
  {
    assert text[i..i + |Fence|] == text[i..i + |Opener|][..|Fence|];
  }

  /** A second opener can only start after the first opener and the whitespace that follows it. */
  lemma OpenersDoNotOverlap(text: string, i: int, i2: int)
    requires OccursAt(text, Opener, i)
    ensures OccursAt(text, Opener, i2) && i < i2 ==> BodyStart(text, i) <= i2
  {
    var j := BodyStart(text, i);
    forall p | i + 3 <= p < j ensures text[p] != '`' {
      if p < i + |Opener| {
        OccursAtChar(text, Opener, i, p - i);
      }
    }
    if OccursAt(text, Opener, i2) && i < i2 {
      OccursAtChar(text, Opener, i2, 0);
      if i2 <= i + 2 {
        OccursAtChar(text, Opener, i, 3);
        OccursAtChar(text, Opener, i2, i + 3 - i2);
      }
    }
  }

  /** `FencedBody` yields the capture group of the leftmost match, and nothing exactly when there is no match. */
  lemma FencedBodyIsLeftmostMatch(text: string)
    ensures FencedBody(text).None? <==> forall i, k :: !RegexMatch(text, i, k)
    ensures FencedBody(text).Some? ==>
      exists i, k :: RegexMatch(text, i, k) && FencedBody(text).value == text[BodyStart(text, i)..k]
        && forall i2, k2 :: RegexMatch(text, i2, k2) ==> i < i2 || (i == i2 && k <= k2)
  {
    match IndexOf(text, Opener, 0)
    case None =>
    case Some(i) =>
      var j := BodyStart(text, i);
      forall i2, k2 | RegexMatch(text, i2, k2) ensures i < i2 || (i == i2 && j <= k2) {
        OpenersDoNotOverlap(text, i, i2);
        OpenerHasFence(text, i2);
      }
      match IndexOf(text, Fence, j)
      case None =>
      case Some(k) =>
        assert RegexMatch(text, i, k);
  }

  /** The body starts at a non-blank character and holds no fence. */
  lemma FencedBodyShape(text: string)
    requires FencedBody(text).Some?
    ensures var b := FencedBody(text).value;
      (b != [] ==> !IsWhitespace(b[0])) && forall p :: !OccursAt(b, Fence, p)
  {
    var i := IndexOf(text, Opener, 0).value;
    var j := BodyStart(text, i);
    var k := IndexOf(text, Fence, j).value;
    var b := text[j..k];
    assert FencedBody(text).value == b;
    forall p | OccursAt(b, Fence, p) ensures false {
      OccursInSlice(text, Fence, j, k, p);
    }
  }

  /** The body found is fixed by where the opener, the whitespace after it and the fence lie. */
  lemma FencedBodyAt(text: string, i: nat, j: nat, k: nat)
    requires OccursAt(text, Opener, i) && OccursAt(text, Fence, k)
    requires i + |Opener| <= j <= k
    requires forall p :: 0 <= p < i ==> text[p] != '`'
    requires forall p :: i + |Opener| <= p < j ==> IsWhitespace(text[p])
    requires !IsWhitespace(text[j])
    requires forall p :: j <= p < k ==> text[p] != '`'
    ensures FencedBody(text) == Some(text[j..k])
  {
    forall p | 0 <= p < i ensures !OccursAt(text, Opener, p) {
      NotOccursAt(text, Opener, p);
    }
    IndexOfFinds(text, Opener, 0, i);
    SkipWhitespaceStops(text, i + |Opener|, j);
    forall p | j <= p < k ensures !OccursAt(text, Fence, p) {
      NotOccursAt(text, Fence, p);
    }
    IndexOfFinds(text, Fence, j, k);
  }

  /** The text of an assistant reply carrying one suggestion block. */
  function BlockText(lead: string, gap: string, body: string): string {
    lead + Opener + gap + body + Fence
  }

  /** An assistant reply made of one text part. */
  function Reply(text: string): Message {
    Message(Assistant, [Text(text)], text)
  }

  /**
   * Extraction inverts embedding: a body put after an opener and some
   * whitespace and closed by a fence is what `FencedBody` returns, when
   * neither the text before it nor the body holds a backtick and the body
   * does not start with whitespace.
   */
  lemma FencedBodyOfBlock(prefix: string, gap: string, body: string)
    requires forall p :: 0 <= p < |prefix| ==> prefix[p] != '`'
    requires AllWhitespace(gap)
    requires forall p :: 0 <= p < |body| ==> body[p] != '`'
    requires body != [] ==> !IsWhitespace(body[0])
    ensures FencedBody(BlockText(prefix, gap, body)) == Some(body)
  {
    var text := BlockText(prefix, gap, body);
    var i := |prefix|;
    var j := i + |Opener| + |gap|;
    var k := j + |body|;
    assert text[i..i + |Opener|] == Opener;
    assert text[j..k] == body;
    assert text[k..k + |Fence|] == Fence;
    assert forall p :: 0 <= p < i ==> text[p] == prefix[p];
    assert forall p :: i + |Opener| <= p < j ==> text[p] == gap[p - i - |Opener|];
    assert forall p :: j <= p < k ==> text[p] == body[p - j];
    assert text[j] == if body != [] then body[0] else Fence[0];
    FencedBodyAt(text, i, j, k);
  }

  /** The suggestions one part yields, if any: a text part whose block body, trimmed, parses to an array. */
  function PartSuggestions(part: Part, parse: JsonParser): Option<seq<string>> {
    match part
    case Text(t) =>
      (match FencedBody(t)
       case None => None
       case Some(body) =>
         match parse(Trim(body))
         case Some(JsonArray(xs)) => Some(xs)
         case _ => None)
    case _ => None
  }

  /** The suggestions of the first part that yields any; the empty list when none does. */
  function FirstSuggestions(parts: seq<Part>, parse: JsonParser): seq<string> {
    if parts == [] then []
    else
      match PartSuggestions(parts[0], parse)
      case Some(xs) => xs
      case None => FirstSuggestions(parts[1..], parse)
  }

  /** The first part that yields suggestions decides them; later parts are not looked at. */
  lemma {:induction false} FirstSuggestionsFromFirst(parts: seq<Part>, parse: JsonParser, k: int)
    requires 0 <= k < |parts| && PartSuggestions(parts[k], parse).Some?
    requires forall j :: 0 <= j < k ==> PartSuggestions(parts[j], parse).None?
    ensures FirstSuggestions(parts, parse) == PartSuggestions(parts[k], parse).value
  {
    if k > 0 {
      assert PartSuggestions(parts[0], parse).None?;
      var rest := parts[1..];
      forall j | 0 <= j < k - 1 ensures PartSuggestions(rest[j], parse).None? {
        assert rest[j] == parts[j + 1];
      }
      assert rest[k - 1] == parts[k];
      FirstSuggestionsFromFirst(rest, parse, k - 1);
    }
  }

  /** When no part yields suggestions there are none. */
  lemma {:induction false} FirstSuggestionsNone(parts: seq<Part>, parse: JsonParser)
    requires forall j :: 0 <= j < |parts| ==> PartSuggestions(parts[j], parse).None?
    ensures FirstSuggestions(parts, parse) == []
  {
    if parts != [] {
      assert forall j :: 0 <= j < |parts| - 1 ==> parts[1..][j] == parts[j + 1];
      FirstSuggestionsNone(parts[1..], parse);
    }
  }

  /** `messages.slice().reverse().find((m) => m.role === 'assistant')`, as an index. */
  function LatestAssistant(msgs: seq<Message>): (r: Option<nat>)
    ensures r.Some? ==> r.value < |msgs| && msgs[r.value].role == Assistant
    ensures r.Some? ==> forall j :: r.value < j < |msgs| ==> msgs[j].role != Assistant
    ensures r.None? ==> forall j :: 0 <= j < |msgs| ==> msgs[j].role != Assistant
  {
    if msgs == [] then None
    else if msgs[|msgs| - 1].role == Assistant then Some(|msgs| - 1)
    else LatestAssistant(msgs[..|msgs| - 1])
  }

  function Suggestions(msgs: seq<Message>, parse: JsonParser): seq<string> {
    match LatestAssistant(msgs)
    case None => []
    case Some(i) => FirstSuggestions(msgs[i].parts, parse)
  }

  /** The scan over the latest assistant message's parts, stopping at the first array that parses. */
  method SelectSuggestions(messages: seq<Message>, parse: JsonParser) returns (suggested: seq<string>)
    ensures suggested == Suggestions(messages, parse)
  {
    var latest := LatestAssistant(messages);
    suggested := [];
    if latest.Some? {
      var parts := messages[latest.value].parts;
      var k := 0;
      while k < |parts|
        invariant 0 <= k <= |parts|
        invariant suggested == []
        invariant FirstSuggestions(parts, parse) == FirstSuggestions(parts[k..], parse)
      {
        var part := parts[k];
        assert parts[k..][0] == part && parts[k..][1..] == parts[k + 1..];
        if part.Text? {
          var block := FencedBody(part.text);
          if block.Some? {
            var parsed := parse(Trim(block.value));
            if parsed.Some? && parsed.value.JsonArray? {
              suggested := parsed.value.elements;
              break;
            }
          }
        }
        k := k + 1;
      }
    }
  }

  /** The last assistant message is the one at `i` when no assistant message follows it. */
  lemma LatestAssistantAt(msgs: seq<Message>, i: nat)
    requires i < |msgs| && msgs[i].role == Assistant
    requires forall j :: i < j < |msgs| ==> msgs[j].role != Assistant
    ensures LatestAssistant(msgs) == Some(i)
  {
    var r := LatestAssistant(msgs);
    assert r.Some?;
    assert !(r.value < i);
  }

  /** Only the latest assistant message counts: later user or system turns change nothing. */
  lemma SuggestionsFromLatest(msgs: seq<Message>, a: Message, later: seq<Message>, parse: JsonParser)
    requires a.role == Assistant
    requires forall j :: 0 <= j < |later| ==> later[j].role != Assistant
    ensures Suggestions(msgs + [a] + later, parse) == FirstSuggestions(a.parts, parse)
  {
    var all := msgs + [a] + later;
    assert all[|msgs|] == a;
    forall j | |msgs| < j < |all| ensures all[j].role != Assistant {
      assert all[j] == later[j - |msgs| - 1];
    }
    LatestAssistantAt(all, |msgs|);
  }

  /** Without an assistant message there are no suggestions. */
  lemma NoAssistantNoSuggestions(msgs: seq<Message>, parse: JsonParser)
    requires forall j :: 0 <= j < |msgs| ==> msgs[j].role != Assistant
    ensures Suggestions(msgs, parse) == []
  {
  }

  /**
   * A block whose surroundings leave no doubt where it is: no backtick
   * before it or in its body, only whitespace between the opener and a
   * body that does not start with whitespace.
   */
  predicate PlainBlock(lead: string, gap: string, body: string) {
    && (forall p :: 0 <= p < |lead| ==> lead[p] != '`')
    && AllWhitespace(gap)
    && (forall p :: 0 <= p < |body| ==> body[p] != '`')
    && (body != [] ==> !IsWhitespace(body[0]))
  }

  /** A reply carrying one block offers what the trimmed body parses to, when that is an array. */
  lemma ReplySuggestions(lead: string, gap: string, body: string, parse: JsonParser)
    requires PlainBlock(lead, gap, body)
    ensures FirstSuggestions(Reply(BlockText(lead, gap, body)).parts, parse)
      == match parse(Trim(body)) case Some(JsonArray(xs)) => xs case _ => []
  {
    var text := BlockText(lead, gap, body);
    FencedBodyOfBlock(lead, gap, body);
    assert Reply(text).parts == [Text(text)];
    assert Reply(text).parts[1..] == [];
  }

  /**
   * A reply whose block body parses to an array offers exactly that array,
   * whatever came before it and whatever non-assistant turns follow it.
   */
  lemma SuggestionsFromBlock(earlier: seq<Message>, lead: string, gap: string, body: string,
                             later: seq<Message>, parse: JsonParser)
    requires PlainBlock(lead, gap, body)
    requires parse(Trim(body)).Some? && parse(Trim(body)).value.JsonArray?
    requires forall j :: 0 <= j < |later| ==> later[j].role != Assistant
    ensures Suggestions(earlier + [Reply(BlockText(lead, gap, body))] + later, parse)
        == parse(Trim(body)).value.elements
  {
    var a := Reply(BlockText(lead, gap, body));
    ReplySuggestions(lead, gap, body, parse);
    SuggestionsFromLatest(earlier, a, later, parse);
  }

  /** A block whose body is not a JSON array offers nothing: the parse error is swallowed. */
  lemma NoSuggestionsFromBadBlock(earlier: seq<Message>, lead: string, gap: string, body: string,
                                  later: seq<Message>, parse: JsonParser)
    requires PlainBlock(lead, gap, body)
    requires parse(Trim(body)).None? || parse(Trim(body)).value.JsonOther?
    requires forall j :: 0 <= j < |later| ==> later[j].role != Assistant
    ensures Suggestions(earlier + [Reply(BlockText(lead, gap, body))] + later, parse) == []
  {
    var a := Reply(BlockText(lead, gap, body));
    ReplySuggestions(lead, gap, body, parse);
    SuggestionsFromLatest(earlier, a, later, parse);
  }
}
