/**
 * The persisted survey record and the reconciliation of one incoming reply into it
 * (`load_status`, the reset record and the body of the `/incoming` handler in app.py).
 */
module Survey {
  import opened Wrappers
  import opened Text

  /** The content of the status file: the last reply of each sender and the cached "answered" flag. */
  datatype Record = Record(responses: map<string, string>, answered: bool)

  /** The replies that count as "the machine has finished": Hebrew "yes", "yes" and "done". */
  const Affirmatives: seq<string> := ["כן", "yes", "done"]

  /**
   * `text in ["כן", "yes", "done"]`. No affirmative has whitespace at its ends, so the
   * padding that normalisation strips never stands in its way.
   */
  predicate IsAffirmative(text: string)
    ensures IsAffirmative(text) ==> IsStripped(text)
  {
    text in Affirmatives
  }

  /** Python's `any(v in [...] for v in responses.values())`, false when nobody has replied. */
  predicate AnyAffirmative(responses: map<string, string>)
    ensures responses == map[] ==> !AnyAffirmative(responses)
  {
    exists v :: v in responses.Values && IsAffirmative(v)
  }

  /** The cache invariant: `answered` is what recomputation over `responses` gives. */
  predicate Consistent(data: Record) {
    data.answered == AnyAffirmative(data.responses)
  }

  /** The record written by a reset and returned for a missing or unparseable status file. */
  function Default(): (r: Record)
    ensures Consistent(r)
    ensures |r.responses| == 0 && !r.answered
  {
    Record(map[], false)
  }

  /**
   * `load_status`: `file` is the parsed status file, `None` when the file does not exist
   * or does not parse; those cases fall back to the empty, unanswered record.
   */
  function Load(file: Option<Record>): (r: Record)
    ensures file.None? ==> r == Default()
    ensures file.Some? ==> r == file.value
    ensures (file.None? || Consistent(file.value)) ==> Consistent(r)
  {
    match file
    case None => Default()
    case Some(data) => data
  }

  /**
   * The sender key: the posted `From` field (empty when absent), stripped; it has no
   * whitespace at its ends and is no longer than the field.
   */
  function NormaliseSender(from: Option<string>): (r: string)
    ensures IsStripped(r) && |r| <= |from.GetOr("")|
    ensures from.None? ==> r == ""
  {
    Strip(from.GetOr(""))
  }

  /**
   * The stored reply: the posted `Body` field (empty when absent or empty), stripped and
   * lower-cased; it has no whitespace at its ends and is no longer than the field.
   */
  function NormaliseBody(body: Option<string>): (r: string)
    ensures IsStripped(r) && |r| <= |body.GetOr("")|
    ensures body.None? ==> r == ""
  {
    LowerKeepsStripped(Strip(body.GetOr("")));
    Lower(Strip(body.GetOr("")))
  }

  /** A stored reply has no upper-case ASCII letter. */
  lemma NormaliseBodySpec(body: Option<string>)
    ensures var r := NormaliseBody(body);
      forall i :: 0 <= i < |r| ==> !('A' <= r[i] <= 'Z')
  {
    LowerIdempotent(Strip(body.GetOr("")));
  }

  /** Whether a raw reply body, once normalised, closes the survey. */
  predicate Closes(body: Option<string>) {
    IsAffirmative(NormaliseBody(body))
  }

  /**
   * The record update of `/incoming`, given the normalised sender and text: the sender's entry
   * is overwritten, and `answered` is set outright for an affirmative text and recomputed
   * over all stored replies otherwise.
   */
  function ApplyReply(data: Record, sender: string, text: string): (r: Record)
    ensures sender in r.responses && r.responses[sender] == text
    ensures forall who :: who != sender ==> (who in r.responses <==> who in data.responses)
    ensures forall who :: who != sender && who in data.responses ==> r.responses[who] == data.responses[who]
    ensures Consistent(r)
    ensures IsAffirmative(text) ==> r.answered
  {
    var responses := data.responses[sender := text];
    if IsAffirmative(text) then
      Record(responses, true)
    else
      Record(responses, AnyAffirmative(responses))
  }

  /** The whole reconciliation of one posted `(From, Body)` pair. */
  function Reconcile(data: Record, from: Option<string>, body: Option<string>): (r: Record)
    ensures NormaliseSender(from) in r.responses
    ensures r.responses[NormaliseSender(from)] == NormaliseBody(body)
    ensures forall who :: who != NormaliseSender(from) ==> (who in r.responses <==> who in data.responses)
    ensures forall who :: who != NormaliseSender(from) && who in data.responses ==> r.responses[who] == data.responses[who]
    ensures Consistent(r)
    ensures Closes(body) ==> r.answered
  {
    ApplyReply(data, NormaliseSender(from), NormaliseBody(body))
  }

  /** One posted reply. */
  datatype Reply = Reply(from: Option<string>, body: Option<string>)

  /** A sequence of replies reconciled one after the other. */
  function Replay(data: Record, replies: seq<Reply>): Record
    decreases |replies|
  {
    if replies == [] then data
    else Replay(Reconcile(data, replies[0].from, replies[0].body), replies[1..])
  }

  /** The same reply posted twice leaves the record as posting it once does. */
  lemma ReplyIdempotent(data: Record, from: Option<string>, body: Option<string>)
    ensures Reconcile(Reconcile(data, from, body), from, body) == Reconcile(data, from, body)
  {
    var once := Reconcile(data, from, body);
    var twice := Reconcile(once, from, body);
    assert twice.responses == once.responses;
  }

  /**
   * A non-affirmative reply from one sender never clears `answered` while another
   * sender's stored reply is affirmative.
   */
  lemma OtherAffirmativeSurvives(data: Record, sender: string, text: string, other: string)
    requires other != sender && other in data.responses && IsAffirmative(data.responses[other])
    ensures ApplyReply(data, sender, text).answered
  {
    var r := ApplyReply(data, sender, text);
    assert r.responses[other] in r.responses.Values && IsAffirmative(r.responses[other]);
  }

  /** A sender overwriting their own affirmative reply clears `answered` when nobody else affirmed. */
  lemma OwnOverwriteCanClear()
    ensures var data := Record(map["A" := "yes"], true);
            Consistent(data) && data.answered && !ApplyReply(data, "A", "no").answered
  {
    var data := Record(map["A" := "yes"], true);
    assert IsAffirmative(data.responses["A"]);
    var r := ApplyReply(data, "A", "no");
    assert r.responses == map["A" := "no"];
    assert !IsAffirmative("no");
  }

  /** However the stored record was before, it satisfies the cache invariant after any non-empty run of replies. */
  lemma {:induction false} ReplayConsistent(data: Record, replies: seq<Reply>)
    requires replies != [] || Consistent(data)
    ensures Consistent(Replay(data, replies))
    decreases |replies|
  {
    if replies != [] {
      var next := Reconcile(data, replies[0].from, replies[0].body);
      ReplayConsistent(next, replies[1..]);
    }
  }

  /** Surrounding whitespace and capitals do not matter: " YES " is affirmative. */
  lemma PaddedCapitalsAffirm()
    ensures NormaliseBody(Some(" YES ")) == "yes" && Closes(Some(" YES "))
  {
    StripPadded();
    LowerCapitals();
  }

  lemma StripPadded()
    ensures Strip(" YES ") == "YES"
  {
    assert IsSpace(' ') && !IsSpace('Y') && !IsSpace('S');
    assert " YES "[1..] == "YES ";
    assert "YES "[1..] == "ES ";
    assert TrimStart(" YES ") == "YES ";
    assert "YES "[..3] == "YES";
    assert TrimEnd("YES ") == "YES";
  }

  lemma LowerCapitals()
    ensures Lower("YES") == "yes"
  {
    var r := Lower("YES");
    assert LowerChar('Y') == 'y' && LowerChar('E') == 'e' && LowerChar('S') == 's';
    assert r[0] == 'y' && r[1] == 'e' && r[2] == 's';
  }

  /** Punctuation is kept: "Yes!" is stored as "yes!" and is not affirmative. */
  lemma PunctuationIsKept()
    ensures NormaliseBody(Some("Yes!")) == "yes!" && !Closes(Some("Yes!"))
  {
    assert !IsSpace('Y') && !IsSpace('!');
    assert TrimStart("Yes!") == "Yes!";
    assert TrimEnd("Yes!") == "Yes!";
    var r := Lower("Yes!");
    assert r[0] == 'y' && r[1] == 'e' && r[2] == 's' && r[3] == '!';
    assert r == "yes!";
    assert r != "yes" && r != "done" && r != "כן";
  }
}
