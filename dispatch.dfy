/**
 * Outgoing messages: the configured numbers and texts, the messaging gateway as an object
 * whose sends may fail, and the broadcast a call of `send_message_to_all` attempts.
 */
module Dispatch {

  /** One attempted send through the gateway. */
  datatype Message = Message(from: string, to: string, body: string)

  /** Whether the gateway accepted a send; a refusal is an error the caller logs. */
  datatype Outcome = Accepted | Refused

  const FromNumber: string := "whatsapp:+14155238886"

  /** `TO_NUMBERS`: every broadcast goes to these, in this order. */
  const ToNumbers: seq<string> := ["whatsapp:+972534313371", "whatsapp:+972523340644"]

  const ReminderText: string := "⏰ תזכורת: האם המכונה סיימה לעבוד? השיבו 'כן' או 'לא'."
  const ManualReminderText: string := "📢 תזכורת ידנית: האם המכונה סיימה לעבוד? השיבו 'כן' או 'לא'."
  const ClosingText: string := "✅ תודה רבה! המשך יום טוב 🌞"

  /** The sends a broadcast of `text` to `recipients` attempts: one per recipient, in list order. */
  function Broadcast(recipients: seq<string>, text: string): (msgs: seq<Message>)
    ensures |msgs| == |recipients|
    ensures forall i :: 0 <= i < |recipients| ==> msgs[i] == Message(FromNumber, recipients[i], text)
  {
    if recipients == [] then [] else [Message(FromNumber, recipients[0], text)] + Broadcast(recipients[1..], text)
  }

  /** Extending the recipient list by one extends the broadcast by the send to that recipient. */
  lemma {:induction false} BroadcastSnoc(recipients: seq<string>, to: string, text: string)
    ensures Broadcast(recipients + [to], text) == Broadcast(recipients, text) + [Message(FromNumber, to, text)]
  {
    if recipients != [] {
      assert (recipients + [to])[1..] == recipients[1..] + [to];
      BroadcastSnoc(recipients[1..], to, text);
    }
  }

  /** How many of `msgs` are addressed to `to`. */
  function CountTo(msgs: seq<Message>, to: string): nat {
    if msgs == [] then 0 else (if msgs[0].to == to then 1 else 0) + CountTo(msgs[1..], to)
  }

  predicate Distinct(recipients: seq<string>) {
    forall i, j :: 0 <= i < j < |recipients| ==> recipients[i] != recipients[j]
  }

  /** A broadcast to distinct recipients reaches each listed recipient exactly once and nobody else. */
  lemma {:induction false} BroadcastReachesEachOnce(recipients: seq<string>, text: string, to: string)
    requires Distinct(recipients)
    ensures CountTo(Broadcast(recipients, text), to) == if to in recipients then 1 else 0
  {
    if recipients != [] {
      var msgs := Broadcast(recipients, text);
      assert msgs[1..] == Broadcast(recipients[1..], text);
      BroadcastReachesEachOnce(recipients[1..], text, to);
      assert to in recipients <==> to == recipients[0] || to in recipients[1..];
      assert to == recipients[0] ==> to !in recipients[1..];
    }
  }

  /** The configured numbers are distinct, so every broadcast reaches each of them exactly once. */
  lemma ToNumbersDistinct()
    ensures Distinct(ToNumbers) && |ToNumbers| == 2
  {
  }

  /**
   * The messaging gateway (the Twilio client in app.py). `attempts` records every
   * message handed to it; whether it accepted one is not under the caller's control.
   */
  class Gateway {
    var attempts: seq<Message>

    constructor ()
      ensures attempts == []
    {
      attempts := [];
    }

    /** `messages.create`: records the attempt; the outcome is chosen by the network, not by the model. */
    method Send(from: string, to: string, body: string) returns (outcome: Outcome)
      modifies this
      ensures attempts == old(attempts) + [Message(from, to, body)]
    {
      attempts := attempts + [Message(from, to, body)];
      if * {
        outcome := Accepted;
      } else {
        outcome := Refused;
      }
    }
  }
}
