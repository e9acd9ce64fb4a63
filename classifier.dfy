/** The decision the intake handler makes for one parsed message before it acts:
    resolution notice, skip, or new ticket. */
module Classifier {
  import opened Options
  import opened Text
  import opened ReplySubject

  /** A parsed inbound message: the first sender address, the subject and the
      plain-text body. */
  datatype Message = Message(from: string, subject: string, text: string)

  datatype Disposition =
    | Resolution(reportId: string)   // status update of an existing report
    | Skip                           // acknowledged, nothing else done
    | NewTicket                      // a report is built and posted

  const ResolutionKeywords: seq<string> := ["resolved", "completed", "fixed", "done"]

  /** The notification address that must never open a ticket. */
  const RailwayAddress: string := "hello@notify.railway.app"

  /** `resolutionKeywords.some(keyword => text.toLowerCase().includes(keyword))`. */
  predicate IsResolutionBody(text: string) {
    exists i :: 0 <= i < |ResolutionKeywords| && Contains(Lower(text), ResolutionKeywords[i])
  }

  /** The sender rule: the railway address, or an address that ends (case-sensitively)
      with neither `@gmail.com` nor `@may-baker.com`. */
  predicate SenderBlocked(from: string) {
    from == RailwayAddress || (!EndsWith(from, "@gmail.com") && !EndsWith(from, "@may-baker.com"))
  }

  /** The resolution test runs first; only a message that is not a resolution notice
      meets the sender rule. */
  function Classify(m: Message): (d: Disposition)
    ensures d.Resolution? ==> |d.reportId| >= 1 && AllDigits(d.reportId)
    ensures d.Skip? <==> !d.Resolution? && !EndsWith(m.from, "@gmail.com") && !EndsWith(m.from, "@may-baker.com")
  {
    RailwayAddressFailsSuffixTest();
    var reply := ReplyTicketId(m.subject);
    if reply.Some? && IsResolutionBody(m.text) then Resolution(reply.value)
    else if SenderBlocked(m.from) then Skip
    else NewTicket
  }

  /** A message is a resolution notice exactly when the reply pattern occurs in its
      subject and its body names a resolution keyword; the id is then the digits of
      the leftmost occurrence. */
  lemma ResolutionIffReplyAndKeyword(m: Message)
    ensures Classify(m).Resolution? <==>
      (exists p: nat :: p <= |m.subject| && MatchesAt(m.subject, p)) && IsResolutionBody(m.text)
    ensures Classify(m).Resolution? ==>
      exists p: nat :: p <= |m.subject| && MatchesAt(m.subject, p) && Classify(m).reportId == Capture(m.subject, p) &&
                       forall p': nat :: p' < p ==> !MatchesAt(m.subject, p')
  {
    ReplyTicketIdIsLeftmostCapture(m.subject);
  }

  /** The explicit railway check adds nothing: its address already fails the suffix test. */
  lemma RailwayAddressFailsSuffixTest()
    ensures !EndsWith(RailwayAddress, "@gmail.com") && !EndsWith(RailwayAddress, "@may-baker.com")
  {
    var n := |RailwayAddress|;
    assert RailwayAddress[n - 10..][9] == 'p' != "@gmail.com"[9];
    assert RailwayAddress[n - 14..][13] == 'p' != "@may-baker.com"[13];
  }

  /** The sender rule is exactly the suffix allow-list. */
  lemma SenderBlockedIffNoAllowedSuffix(from: string)
    ensures SenderBlocked(from) <==> !EndsWith(from, "@gmail.com") && !EndsWith(from, "@may-baker.com")
  {
    RailwayAddressFailsSuffixTest();
  }

  /** A resolution notice is recognised whatever its sender: the resolution test
      precedes the sender rule. */
  lemma ResolutionIgnoresSender(m: Message, sender: string)
    requires Classify(m).Resolution?
    ensures Classify(m.(from := sender)) == Classify(m)
  {
  }

  /** A reply-formatted subject without a resolution keyword is not a resolution
      notice: the message meets the sender rule like any other. */
  lemma ReplyWithoutKeywordFallsThrough(m: Message)
    requires ReplyTicketId(m.subject).Some? && !IsResolutionBody(m.text)
    ensures Classify(m) == if SenderBlocked(m.from) then Skip else NewTicket
  {
  }

  /** Replying to an assignment notice with a body naming a resolution keyword
      resolves the report the notice was about, whoever replies. */
  lemma ReplyToAssignmentResolves(id: nat, issue: string, from: string, body: string)
    requires IsResolutionBody(body)
    ensures Classify(Message(from, "Re: " + AssignmentSubject(id, issue), body)) == Resolution(DecimalString(id))
  {
    ReplyToAssignmentYieldsId(id, issue);
  }

  /** A plain request from an allow-listed address opens a ticket. */
  lemma PlainRequestOpensTicket()
    ensures Classify(Message("a@gmail.com", "Printer broken", "please help")) == NewTicket
  {
    var m := Message("a@gmail.com", "Printer broken", "please help");
    assert !IsResolutionBody(m.text) by {
      forall i, j | 0 <= i < |ResolutionKeywords| && 0 <= j <= |m.text| - |ResolutionKeywords[i]|
        ensures !(ResolutionKeywords[i] <= Lower(m.text)[j..])
      {
        assert Lower(m.text)[j..][0] == Lower(m.text)[j];
      }
    }
    assert m.from[|m.from| - 10..] == "@gmail.com";
  }

  /** A message from an address outside the allow-list is skipped unless it is a
      resolution notice. */
  lemma ForeignSenderSkipped(subject: string, text: string)
    requires !(ReplyTicketId(subject).Some? && IsResolutionBody(text))
    ensures Classify(Message("notify@system.example", subject, text)) == Skip
  {
  }

  /** A reply `fixed, thanks` to the notice about report 42 resolves report `42`. */
  lemma FixedReplyResolvesReport42(from: string)
    ensures Classify(Message(from, "Re: New Helpdesk Request Assigned (ID: 42): Printer broken", "fixed, thanks"))
            == Resolution("42")
  {
    FixedThanksIsResolutionBody();
    DecimalString42();
    ReplyToReport42Subject();
    ReplyToAssignmentResolves(42, "Printer broken", from, "fixed, thanks");
  }

  lemma FixedThanksIsResolutionBody()
    ensures IsResolutionBody("fixed, thanks")
  {
    var body := "fixed, thanks";
    assert Lower(body)[..5] == "fixed";
    assert ResolutionKeywords[2] <= Lower(body)[0..];
  }

  lemma DecimalString42()
    ensures DecimalString(42) == "42"
  {
    assert DecimalString(4) == "4";
  }

  lemma ReplyToReport42Subject()
    ensures "Re: " + AssignmentSubject(42, "Printer broken")
         == "Re: New Helpdesk Request Assigned (ID: 42): Printer broken"
  {
    DecimalString42();
    ReplyMarkerText();
    SplitReport42Subject();
    var issue := "Printer broken";
    assert "Re: " + AssignmentSubject(42, issue) == ReplyMarker + ("42" + "): " + issue);
  }

  lemma ReplyMarkerText()
    ensures ReplyMarker == "Re: New Helpdesk Request Assigned (ID: "
  {
  }

  lemma SplitReport42Subject()
    ensures "Re: New Helpdesk Request Assigned (ID: 42): Printer broken"
         == "Re: New Helpdesk Request Assigned (ID: " + ("42" + "): " + "Printer broken")
  {
  }
}
