/**
 * The update callback of the custom-name query: it inspects every reply tuple
 * the receiver library delivers and records, per two-character input code,
 * the name carried by input-rename replies.
 */
module RenameReply {
  import opened Wrappers
  import opened PyStr

  /**
   * One element of a reply tuple. The library hands over loosely typed values;
   * only whether an element is a string, and which string, matters here.
   */
  datatype Field = Str(text: string) | NonStr

  /** A reply tuple `(zone, command, value, ...)` as passed to the update callback. */
  type Message = seq<Field>

  /** The descriptive command name the library reports for input-rename replies. */
  const RENAME_COMMAND: string := "input-selector-rename-input-function-rename"

  /** What an accepted rename reply says: the input code and its custom name. */
  datatype Rename = Rename(code: string, name: string)

  /** A name worth storing: non-empty and already free of surrounding whitespace. */
  predicate WellFormedName(name: string) {
    name != [] && Strip(name) == name
  }

  /** A name is well formed exactly when it is non-empty and neither starts nor ends with whitespace. */
  lemma WellFormedNameEnds(name: string)
    ensures WellFormedName(name) <==> name != [] && !IsSpace(name[0]) && !IsSpace(name[|name| - 1])
  {
    StripEnds(name);
    if name != [] && !IsSpace(name[0]) && !IsSpace(name[|name| - 1]) {
      StripUnique(name, 0, |name|);
    }
  }

  /** The invariant of the collected names: two-character codes, well-formed names. */
  predicate WellFormedNames(names: map<string, string>) {
    forall code :: code in names ==> |code| == 2 && WellFormedName(names[code])
  }

  /** The reply tuple's value is a rename reply: the right command and a string of two or more characters. */
  predicate IsRenameValue(message: Message) {
    && |message| >= 3
    && message[1] == Str(RENAME_COMMAND)
    && message[2].Str?
    && |message[2].text| >= 2
  }

  /**
   * What the callback extracts from one reply tuple, or None when it ignores
   * the reply: a tuple shorter than three, another command, a value that is
   * not a string or is shorter than two characters, or a name that is blank.
   */
  function ParseRename(message: Message): (r: Option<Rename>)
    ensures r.Some? <==> IsRenameValue(message) && !AllSpace(message[2].text[2..])
    ensures r.Some? ==> r.value.code == message[2].text[..2] && |r.value.code| == 2
  {
    if |message| >= 3 && message[1] == Str(RENAME_COMMAND) then
      var value := message[2];
      if value.Str? && |value.text| >= 2 then
        var name := Strip(value.text[2..]);
        StripEnds(value.text[2..]);
        if name != "" then Some(Rename(value.text[..2], name)) else None
      else
        None
    else
      None
  }

  /** The collected names after one reply: an accepted reply sets its code, anything else changes nothing. */
  function ApplyReply(names: map<string, string>, message: Message): (next: map<string, string>)
  {
    match ParseRename(message)
    case None => names
    case Some(Rename(code, name)) => names[code := name]
  }

  /** The names collected from a sequence of replies, delivered in order, starting from none. */
  function Received(replies: seq<Message>): (names: map<string, string>)
  {
    if replies == [] then map[] else ApplyReply(Received(replies[..|replies| - 1]), replies[|replies| - 1])
  }

  /** `message` is an accepted rename reply for `code`. */
  predicate RenamesCode(message: Message, code: string) {
    ParseRename(message).Some? && ParseRename(message).value.code == code
  }

  /** The state of the callback's closure: the dictionary it fills in place. */
  class RenameCollector {
    var receivedNames: map<string, string>

    ghost predicate Valid()
      reads this
    {
      WellFormedNames(receivedNames)
    }

    constructor ()
      ensures Valid() && receivedNames == map[]
    {
      receivedNames := map[];
    }

    /** The update callback: handle one reply tuple. */
    method OnUpdate(message: Message)
      requires Valid()
      modifies this
      ensures Valid()
      ensures receivedNames == ApplyReply(old(receivedNames), message)
    {
      if |message| >= 3 {
        var command, value := message[1], message[2];
        if command == Str(RENAME_COMMAND) {
          if value.Str? && |value.text| >= 2 {
            var inputId := value.text[..2];
            var customName := Strip(value.text[2..]);
            if customName != "" {
              StripIdempotent(value.text[2..]);
              receivedNames := receivedNames[inputId := customName];
            }
          }
        }
      }
    }
  }

  /**
   * A reply is ignored, leaving the names as they were, when it is shorter
   * than three elements, carries another command, has a value that is not a
   * string or is shorter than two characters, or whose name part is blank.
   */
  lemma IgnoredReplyChangesNothing(names: map<string, string>, message: Message)
    requires || |message| < 3
             || message[1] != Str(RENAME_COMMAND)
             || !message[2].Str?
             || |message[2].text| < 2
             || AllSpace(message[2].text[2..])
    ensures ApplyReply(names, message) == names
  {
  }

  /**
   * An accepted reply sets exactly one entry, its code, to the stripped name,
   * overwriting an earlier name for that code; every other entry is kept.
   */
  lemma AcceptedReplySetsOneName(names: map<string, string>, message: Message)
    requires IsRenameValue(message) && !AllSpace(message[2].text[2..])
    ensures var code := message[2].text[..2];
            && ApplyReply(names, message).Keys == names.Keys + {code}
            && ApplyReply(names, message)[code] == Strip(message[2].text[2..])
            && forall c :: c in names && c != code ==> ApplyReply(names, message)[c] == names[c]
  {
  }

  /** The name of an accepted reply is non-empty and already stripped. */
  lemma ParsedNameWellFormed(message: Message)
    requires ParseRename(message).Some?
    ensures WellFormedName(ParseRename(message).value.name)
  {
    StripIdempotent(message[2].text[2..]);
  }

  /** Handling a reply keeps the collected names well formed. */
  lemma ApplyReplyKeepsWellFormed(names: map<string, string>, message: Message)
    requires WellFormedNames(names)
    ensures WellFormedNames(ApplyReply(names, message))
  {
    if ParseRename(message).Some? {
      ParsedNameWellFormed(message);
    }
  }

  /**
   * A rename reply as the receiver sends it, the code followed by the name
   * padded with whitespace, is accepted and yields that code and name, with
   * the name's case kept; extra tuple elements after the value are ignored.
   */
  lemma ParseOfPaddedName(zone: Field, code: string, pre: string, name: string, post: string, rest: seq<Field>)
    requires |code| == 2 && WellFormedName(name) && AllSpace(pre) && AllSpace(post)
    ensures ParseRename([zone, Str(RENAME_COMMAND), Str(code + pre + name + post)] + rest) == Some(Rename(code, name))
  {
    var text := code + pre + name + post;
    assert text == code + (pre + name + post);
    assert text[..2] == code && text[2..] == pre + name + post;
    StripEnds(name);
    StripOfPadded(pre, name, post);
    var message := [zone, Str(RENAME_COMMAND), Str(text)] + rest;
    assert message[1] == Str(RENAME_COMMAND) && message[2] == Str(text);
  }

  /** Conversely, an accepted reply's value is exactly its code followed by its name padded with whitespace. */
  lemma AcceptedValueIsPaddedName(message: Message) returns (pre: string, post: string)
    requires ParseRename(message).Some?
    ensures var r := ParseRename(message).value;
            AllSpace(pre) && AllSpace(post) && message[2].text == r.code + pre + r.name + post
  {
    var text := message[2].text;
    pre, post := PaddedAfterCode(text);
  }

  lemma PaddedAfterCode(text: string) returns (pre: string, post: string)
    requires |text| >= 2
    ensures AllSpace(pre) && AllSpace(post) && text == text[..2] + pre + Strip(text[2..]) + post
  {
    pre, post := StripPadding(text[2..]);
    assert text == text[..2] + text[2..];
    assert text[..2] + (pre + Strip(text[2..]) + post) == text[..2] + pre + Strip(text[2..]) + post;
  }

  /** Every name collected from any sequence of replies is well formed under a two-character code. */
  lemma {:induction false} ReceivedWellFormed(replies: seq<Message>)
    ensures WellFormedNames(Received(replies))
  {
    if replies != [] {
      ReceivedWellFormed(replies[..|replies| - 1]);
      ApplyReplyKeepsWellFormed(Received(replies[..|replies| - 1]), replies[|replies| - 1]);
    }
  }

  /** What one reply does to the entry of one code: set it if the reply renames that code, else keep it. */
  lemma ApplyReplyAt(names: map<string, string>, message: Message, code: string)
    ensures RenamesCode(message, code) ==>
              code in ApplyReply(names, message) && ApplyReply(names, message)[code] == ParseRename(message).value.name
    ensures !RenamesCode(message, code) ==>
              && (code in ApplyReply(names, message) <==> code in names)
              && (code in names ==> ApplyReply(names, message)[code] == names[code])
  {
  }

  /** A code that some reply renamed has a collected name. */
  lemma {:induction false} RenamedCodeIsReceived(replies: seq<Message>, i: nat, code: string)
    requires i < |replies| && RenamesCode(replies[i], code)
    ensures code in Received(replies)
  {
    var n := |replies| - 1;
    var init := replies[..n];
    ApplyReplyAt(Received(init), replies[n], code);
    if i < n {
      assert init[i] == replies[i];
      RenamedCodeIsReceived(init, i, code);
    }
  }

  /**
   * A code has a collected name only if some reply `i` renamed it, and the
   * name is that reply's: no later reply renames the code again.
   */
  lemma {:induction false} LastRenameWins(replies: seq<Message>, code: string) returns (i: nat)
    requires code in Received(replies)
    ensures i < |replies| && RenamesCode(replies[i], code)
    ensures ParseRename(replies[i]).value.name == Received(replies)[code]
    ensures forall j :: i < j < |replies| ==> !RenamesCode(replies[j], code)
  {
    var n := |replies| - 1;
    var init := replies[..n];
    ApplyReplyAt(Received(init), replies[n], code);
    if RenamesCode(replies[n], code) {
      i := n;
    } else {
      i := LastRenameWins(init, code);
      assert replies[i] == init[i];
      assert forall j :: i < j < n ==> replies[j] == init[j];
    }
  }
}
