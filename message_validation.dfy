/**
 * `validateMessages` of the chat proxy: checks the untrusted `messages` value of
 * a request in a fixed order, collects one fault per failed check of each
 * message, sanitises every string `content` in place and sums the sanitised
 * lengths.
 *
 * The pure functions below (MessageFaults, Collect, Faults, TotalChars, SanitizedAll,
 * Verdict) say what one run of the loop computes; the method ValidateMessages
 * is the loop itself, proved against them.
 */
module MessageValidation {
  import opened Wrappers
  import opened Json
  import opened Text
  import opened Sanitizer

  const MaxMessages := 50
  const MaxMessageLength := 5000
  const MaxTotalChars := 30000
  const ValidRoles: seq<string> := ["user", "assistant", "system"]

  /** The per-message checks, in the order the loop makes them. */
  datatype Fault = InvalidFormat | InvalidRole | ContentNotString | ContentTooLong | ContentEmpty

  /** One entry of the `errors` list: a fault of the message at `index`. */
  datatype MessageFault = MessageFault(index: nat, fault: Fault)

  datatype MessagesError =
    | NotAnArray
    | EmptyArray
    | TooManyMessages
    | TotalTooLong
    | PerMessage(faults: seq<MessageFault>)

  datatype MessagesResult = MessagesValid | MessagesInvalid(error: MessagesError)

  /** `msg.role` is one of the allowed role strings. */
  predicate RoleOk(m: Json)
  {
    var role := Get(m, "role");
    role.Some? && role.value.Str? && role.value.s in ValidRoles
  }

  /** `typeof msg.content === 'string'`. */
  predicate ContentIsString(m: Json)
  {
    var content := Get(m, "content");
    content.Some? && content.value.Str?
  }

  /** A message that passes every per-message check: an object with an allowed
      role and a string content of at most MaxMessageLength characters whose
      sanitised form is not empty. */
  predicate WellFormed(m: Json)
  {
    && m.Obj?
    && RoleOk(m)
    && ContentIsString(m)
    && |m.fields["content"].s| <= MaxMessageLength
    && Sanitize(m.fields["content"].s) != ""
  }

  /** `msg.content` read as a string; only meaningful when ContentIsString(m). */
  function Content(m: Json): string
    requires ContentIsString(m)
  {
    m.fields["content"].s
  }

  /** The message as the loop leaves it: a message with string content gets the
      sanitised text as its new `content`; any other message is left alone. */
  function Rewrite(m: Json): Json
  {
    if ContentIsString(m) then Obj(m.fields["content" := Str(Sanitize(Content(m)))]) else m
  }

  /** What the message adds to `totalChars`: the length of its sanitised content,
      or nothing when the loop leaves the message before sanitising it. */
  function SanitizedLength(m: Json): nat
  {
    if ContentIsString(m) then |Sanitize(Content(m))| else 0
  }

  /** The faults the loop records for one message, in the order it checks them.
      A value that is not an object gets InvalidFormat alone; a content that is
      not a string stops the checks after the role. */
  function MessageFaults(m: Json): (fs: seq<Fault>)
    ensures !IsObject(m) ==> fs == [InvalidFormat]
    ensures IsObject(m) && !ContentIsString(m) ==>
              fs == (if RoleOk(m) then [] else [InvalidRole]) + [ContentNotString]
  {
    if !IsObject(m) then [InvalidFormat]
    else
      var roleFaults := if RoleOk(m) then [] else [InvalidRole];
      if !ContentIsString(m) then roleFaults + [ContentNotString]
      else
        roleFaults
        + (if |Content(m)| > MaxMessageLength then [ContentTooLong] else [])
        + (if Sanitize(Content(m)) == "" then [ContentEmpty] else [])
  }

  /** A message gets no fault exactly when it passes every check. */
  lemma MessageFaultsEmptyIff(m: Json)
    ensures MessageFaults(m) == [] <==> WellFormed(m)
  {
  }

  /** The faults of one message, tagged with its index. */
  function Tag(i: nat, fs: seq<Fault>): (r: seq<MessageFault>)
    ensures |r| == |fs| && forall k :: 0 <= k < |fs| ==> r[k] == MessageFault(i, fs[k])
  {
    seq(|fs|, k requires 0 <= k < |fs| => MessageFault(i, fs[k]))
  }

  /** A fault of a message appears, tagged, in that message's entries. */
  lemma TaggedContains(i: nat, fs: seq<Fault>, g: Fault)
    requires g in fs
    ensures MessageFault(i, g) in Tag(i, fs)
  {
    var k :| 0 <= k < |fs| && fs[k] == g;
    assert Tag(i, fs)[k] == MessageFault(i, g);
  }

  /** The faults `check` finds in each message of `ms`, in order, each tagged
      with the index of its message. The lemmas about it hold for any check. */
  function Collect(ms: seq<Json>, check: Json -> seq<Fault>): seq<MessageFault>
  {
    if ms == [] then []
    else Collect(ms[..|ms| - 1], check) + Tag(|ms| - 1, check(ms[|ms| - 1]))
  }

  /** The `errors` list after the loop has visited every message of `ms`. */
  function Faults(ms: seq<Json>): seq<MessageFault>
  {
    Collect(ms, MessageFaults)
  }

  /** `totalChars` after the loop: the sum of the sanitised content lengths. */
  function TotalChars(ms: seq<Json>): nat
  {
    if ms == [] then 0
    else TotalChars(ms[..|ms| - 1]) + SanitizedLength(ms[|ms| - 1])
  }

  /** The array as the loop leaves it. */
  function SanitizedAll(ms: seq<Json>): seq<Json>
  {
    seq(|ms|, i requires 0 <= i < |ms| => Rewrite(ms[i]))
  }

  /** The result of `validateMessages` on an array holding `ms`. */
  function Verdict(ms: seq<Json>): MessagesResult
  {
    if |ms| == 0 then MessagesInvalid(EmptyArray)
    else if |ms| > MaxMessages then MessagesInvalid(TooManyMessages)
    else if TotalChars(ms) > MaxTotalChars then MessagesInvalid(TotalTooLong)
    else if Faults(ms) != [] then MessagesInvalid(PerMessage(Faults(ms)))
    else MessagesValid
  }

  /** `messages.reduce((sum, m) => sum + m.content.length, 0)`, counting a
      message without string content as 0. */
  function ContentLength(ms: seq<Json>): nat
  {
    if ms == [] then 0
    else
      var m := ms[|ms| - 1];
      ContentLength(ms[..|ms| - 1]) + (if ContentIsString(m) then |Content(m)| else 0)
  }

  /** How the list grows by one message. */
  lemma CollectStep(ms: seq<Json>, i: nat, check: Json -> seq<Fault>)
    requires i < |ms|
    ensures Collect(ms[..i + 1], check) == Collect(ms[..i], check) + Tag(i, check(ms[i]))
  {
    assert ms[..i + 1][..i] == ms[..i];
  }

  /** How TotalChars grows by one message. */
  lemma TotalCharsStep(ms: seq<Json>, i: nat)
    requires i < |ms|
    ensures TotalChars(ms[..i + 1]) == TotalChars(ms[..i]) + SanitizedLength(ms[i])
  {
    assert ms[..i + 1][..i] == ms[..i];
  }

  /** `validateMessages(messages)` where `messages` is null for any value that
      is not an array. A non-array, an empty array or one with more than
      MaxMessages entries is rejected before any message is looked at or
      rewritten; otherwise every message is visited: its faults are appended
      to `errors` and, when its content is a string, the content is replaced
      in place by its sanitised form and that length added to `totalChars`. */
  method ValidateMessages(messages: array?<Json>) returns (r: MessagesResult)
    modifies messages
    ensures messages == null ==> r == MessagesInvalid(NotAnArray)
    ensures messages != null ==> r == Verdict(old(messages[..]))
    ensures messages != null && (messages.Length == 0 || messages.Length > MaxMessages) ==>
              messages[..] == old(messages[..])
    ensures messages != null && 0 < messages.Length <= MaxMessages ==>
              messages[..] == SanitizedAll(old(messages[..]))
  {
    if messages == null {
      return MessagesInvalid(NotAnArray);
    }
    if messages.Length == 0 {
      return MessagesInvalid(EmptyArray);
    }
    if messages.Length > MaxMessages {
      return MessagesInvalid(TooManyMessages);
    }
    ghost var original := messages[..];
    var errors: seq<MessageFault> := [];
    var totalChars := 0;
    for i := 0 to messages.Length
      invariant errors == Faults(original[..i])
      invariant totalChars == TotalChars(original[..i])
      invariant forall k :: 0 <= k < i ==> messages[k] == SanitizedAll(original)[k]
      invariant forall k :: i <= k < messages.Length ==> messages[k] == original[k]
    {
      CollectStep(original, i, MessageFaults);
      TotalCharsStep(original, i);
      var msg := messages[i];
      ghost var before := messages[..];
      errors := errors + Tag(i, MessageFaults(msg));
      if ContentIsString(msg) {
        var clean := Sanitize(Content(msg));
        messages[i] := Obj(msg.fields["content" := Str(clean)]);
        totalChars := totalChars + |clean|;
      }
      assert messages[i] == Rewrite(original[i]);
      assert forall k :: 0 <= k < messages.Length && k != i ==> messages[k] == before[k];
    }
    assert original[..messages.Length] == original;
    if totalChars > MaxTotalChars {
      return MessagesInvalid(TotalTooLong);
    }
    if |errors| > 0 {
      return MessagesInvalid(PerMessage(errors));
    }
    return MessagesValid;
  }

  // ---------------------------------------------------------------------
  // Properties of one run of the loop
  // ---------------------------------------------------------------------

  /** Every entry names an index of `ms` and one of the faults `check` finds
      in that message. */
  lemma {:induction false} CollectSound(ms: seq<Json>, check: Json -> seq<Fault>)
    ensures forall f :: f in Collect(ms, check) ==> f.index < |ms| && f.fault in check(ms[f.index])
    decreases |ms|
  {
    if ms != [] {
      var n := |ms| - 1;
      var init := ms[..n];
      CollectSound(init, check);
      var tagged := Tag(n, check(ms[n]));
      forall f | f in Collect(ms, check)
        ensures f.index < |ms| && f.fault in check(ms[f.index])
      {
        if f in Collect(init, check) {
          assert ms[f.index] == init[f.index];
        } else {
          var k :| 0 <= k < |tagged| && tagged[k] == f;
        }
      }
    }
  }

  /** The list for the first `j` messages is a prefix of the whole list:
      later messages only append. */
  lemma {:induction false} CollectPrefix(ms: seq<Json>, j: nat, check: Json -> seq<Fault>)
    requires j <= |ms|
    ensures Collect(ms[..j], check) <= Collect(ms, check)
    decreases |ms|
  {
    if j < |ms| {
      var n := |ms| - 1;
      var init := ms[..n];
      CollectPrefix(init, j, check);
      assert init[..j] == ms[..j];
    } else {
      assert ms[..j] == ms;
    }
  }

  /** Every fault of every message is listed, not only those of the first
      faulty message. */
  lemma CollectComplete(ms: seq<Json>, i: nat, g: Fault, check: Json -> seq<Fault>)
    requires i < |ms| && g in check(ms[i])
    ensures MessageFault(i, g) in Collect(ms, check)
  {
    var upto := ms[..i + 1];
    assert upto[..i] == ms[..i];
    TaggedContains(i, check(ms[i]), g);
    CollectPrefix(ms, i + 1, check);
    var k :| 0 <= k < |Collect(upto, check)| && Collect(upto, check)[k] == MessageFault(i, g);
    assert Collect(ms, check)[k] == MessageFault(i, g);
  }

  /** The entries come in the order of the messages. */
  lemma {:induction false} CollectOrdered(ms: seq<Json>, check: Json -> seq<Fault>)
    ensures forall a, b :: 0 <= a < b < |Collect(ms, check)| ==>
              Collect(ms, check)[a].index <= Collect(ms, check)[b].index
    decreases |ms|
  {
    if ms != [] {
      var n := |ms| - 1;
      var init := ms[..n];
      var all := Collect(ms, check);
      var before := Collect(init, check);
      CollectOrdered(init, check);
      CollectSound(init, check);
      var tagged := Tag(n, check(ms[n]));
      assert all == before + tagged;
      forall a, b | 0 <= a < b < |all|
        ensures all[a].index <= all[b].index
      {
        if b >= |before| {
          assert all[b] == tagged[b - |before|];
          if a < |before| {
            assert all[a] in before;
          }
        } else {
          assert all[a] == before[a] && all[b] == before[b];
        }
      }
    }
  }

  /** No fault is recorded exactly when every message passes every check. */
  lemma NoFaultsIffWellFormed(ms: seq<Json>)
    ensures Faults(ms) == [] <==> forall i :: 0 <= i < |ms| ==> WellFormed(ms[i])
  {
    CollectSound(ms, MessageFaults);
    if Faults(ms) == [] {
      forall i | 0 <= i < |ms| ensures WellFormed(ms[i]) {
        MessageFaultsEmptyIff(ms[i]);
        if MessageFaults(ms[i]) != [] {
          CollectComplete(ms, i, MessageFaults(ms[i])[0], MessageFaults);
        }
      }
    } else {
      var f := Faults(ms)[0];
      assert f in Faults(ms);
      MessageFaultsEmptyIff(ms[f.index]);
      assert !WellFormed(ms[f.index]);
    }
  }

  /** The order of the checks: the count checks come first and are fatal, a
      total above MaxTotalChars hides every per-message fault, and the result
      is valid exactly when the array holds 1 to MaxMessages messages that all
      pass every check and whose sanitised contents sum to at most MaxTotalChars. */
  lemma VerdictCharacterised(ms: seq<Json>)
    ensures |ms| == 0 ==> Verdict(ms) == MessagesInvalid(EmptyArray)
    ensures |ms| > MaxMessages ==> Verdict(ms) == MessagesInvalid(TooManyMessages)
    ensures 0 < |ms| <= MaxMessages && TotalChars(ms) > MaxTotalChars ==>
              Verdict(ms) == MessagesInvalid(TotalTooLong)
    ensures Verdict(ms).MessagesInvalid? && Verdict(ms).error.PerMessage? ==>
              Verdict(ms).error.faults == Faults(ms) && Faults(ms) != []
    ensures Verdict(ms) == MessagesValid <==>
              && 0 < |ms| <= MaxMessages
              && TotalChars(ms) <= MaxTotalChars
              && forall i :: 0 <= i < |ms| ==> WellFormed(ms[i])
  {
    NoFaultsIffWellFormed(ms);
  }

  /** `totalChars` is the summed length of the contents as they are forwarded,
      i.e. after sanitising, not before. */
  lemma {:induction false} TotalIsForwardedLength(ms: seq<Json>)
    ensures TotalChars(ms) == ContentLength(SanitizedAll(ms))
    decreases |ms|
  {
    if ms != [] {
      var n := |ms| - 1;
      TotalIsForwardedLength(ms[..n]);
      assert SanitizedAll(ms)[..n] == SanitizedAll(ms[..n]);
      var m := ms[n];
      if ContentIsString(m) {
        assert Get(Rewrite(m), "content") == Some(Str(Sanitize(Content(m))));
      }
    }
  }

  /** Sanitising never makes the total longer than the raw contents. */
  lemma {:induction false} TotalAtMostRawLength(ms: seq<Json>)
    ensures TotalChars(ms) <= ContentLength(ms)
    decreases |ms|
  {
    if ms != [] {
      TotalAtMostRawLength(ms[..|ms| - 1]);
    }
  }

  /** A forwarded turn: an object with an allowed role and a non-empty string
      content of at most MaxMessageLength characters. */
  predicate ForwardedTurn(m: Json)
  {
    m.Obj? && RoleOk(m) && ContentIsString(m) && 0 < |Content(m)| <= MaxMessageLength
  }

  /** A message that passes every check is forwarded as a clean turn. */
  lemma RewriteOfWellFormed(m: Json)
    requires WellFormed(m)
    ensures ForwardedTurn(Rewrite(m))
  {
    assert Get(Rewrite(m), "role") == Get(m, "role");
  }

  /** What a valid result guarantees about the messages forwarded upstream. */
  lemma ValidForwardsCleanTurns(ms: seq<Json>)
    requires Verdict(ms) == MessagesValid
    ensures 0 < |SanitizedAll(ms)| <= MaxMessages
    ensures forall i :: 0 <= i < |ms| ==> ForwardedTurn(SanitizedAll(ms)[i])
    ensures ContentLength(SanitizedAll(ms)) <= MaxTotalChars
  {
    VerdictCharacterised(ms);
    TotalIsForwardedLength(ms);
    forall i | 0 <= i < |ms| ensures ForwardedTurn(SanitizedAll(ms)[i]) {
      RewriteOfWellFormed(ms[i]);
    }
  }
}
