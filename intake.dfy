/** The per-message handler of the inbound mail service: for one parsed message it
    either marks a report resolved, skips the message, or builds and posts a new
    report and notifies its assignee; every path ends by requesting the message's `\Seen` flag. */
module Intake {
  import opened Options
  import opened Text
  import opened ReplySubject
  import opened Classifier

  /** An entry of the user roster served by `GET /api/users`. */
  datatype User = User(email: string, role: string, branch: Option<string>, department: Option<string>)

  /** The report object posted to `/api/reports`; a field never assigned is `None`. */
  datatype Report = Report(
    issue: string, description: string, reportedBy: string,
    dateReported: string, timeReported: string, status: string,
    branch: Option<string>, department: Option<string>, staff: Option<string>)

  /** Local date and time text, as read from the clock when the handler needs it. */
  datatype Clock = Clock(date: string, time: string)

  /** The answer to `POST /api/reports` when the call did not throw. */
  datatype Created = Created(status: int, id: nat)

  /** What the handler's HTTP calls return: the roster read for the sender lookup,
      the roster read again for the staff pick, and the creation answer.
      `None` stands for a call that threw (a network error or a non-2xx status). */
  datatype Replies = Replies(users: Option<seq<User>>, staffUsers: Option<seq<User>>, created: Option<Created>)

  /** The effects the handler has on the world outside it, in the order issued. */
  datatype Action =
    | UpdateReport(reportId: string, status: string, resolutionTime: string, dateClosed: string)  // PUT /api/reports/:id
    | CreateReport(report: Report)                                                               // POST /api/reports
    | SendAssignment(to: string, subject: string, report: Report)                                // notice to the assignee
    | MarkSeen(seqno: nat)                                                                       // `\Seen` flag

  /** `users[i]` is the first roster entry whose email equals `email` exactly. */
  ghost predicate FirstWithEmail(users: seq<User>, email: string, i: int) {
    0 <= i < |users| && users[i].email == email &&
    forall j :: 0 <= j < i ==> users[j].email != email
  }

  /** `users.find(u => u.email === email)`. */
  function FindUser(users: seq<User>, email: string): (r: Option<User>)
    ensures r.Some? ==> exists i :: FirstWithEmail(users, email, i) && users[i] == r.value
    ensures r.None? ==> forall i :: 0 <= i < |users| ==> users[i].email != email
  {
    if users == [] then None
    else if users[0].email == email then
      assert FirstWithEmail(users, email, 0);
      Some(users[0])
    else
      var r := FindUser(users[1..], email);
      assert r.Some? ==> exists i :: FirstWithEmail(users, email, i) && users[i] == r.value by {
        if r.Some? {
          var i :| FirstWithEmail(users[1..], email, i) && users[1..][i] == r.value;
          assert FirstWithEmail(users, email, i + 1);
        }
      }
      r
  }

  predicate IsStaffRole(role: string) {
    role == "admin" || role == "superadmin"
  }

  /** `users[i]` is the first admin or superadmin of the roster. */
  ghost predicate FirstStaff(users: seq<User>, i: int) {
    0 <= i < |users| && IsStaffRole(users[i].role) &&
    forall j :: 0 <= j < i ==> !IsStaffRole(users[j].role)
  }

  /** `users.filter(u => u.role === 'admin' || u.role === 'superadmin')`. */
  function StaffOf(users: seq<User>): (r: seq<User>)
    ensures forall u :: u in r <==> u in users && IsStaffRole(u.role)
    ensures r == [] <==> forall i :: 0 <= i < |users| ==> !IsStaffRole(users[i].role)
    ensures r != [] ==> exists i :: FirstStaff(users, i) && r[0] == users[i]
  {
    if users == [] then []
    else
      var rest := StaffOf(users[1..]);
      if IsStaffRole(users[0].role) then
        assert FirstStaff(users, 0);
        [users[0]] + rest
      else
        assert rest != [] ==> exists i :: FirstStaff(users, i) && rest[0] == users[i] by {
          if rest != [] {
            var i :| FirstStaff(users[1..], i) && rest[0] == users[1..][i];
            assert FirstStaff(users, i + 1);
          }
        }
        assert forall i :: 1 <= i < |users| ==> users[i] == users[1..][i - 1];
        rest
  }

  /** The email of the first admin or superadmin (`staff[0].email`), if any. */
  function Assignee(staffUsers: seq<User>): (r: Option<string>)
    ensures r.Some? <==> exists i :: 0 <= i < |staffUsers| && IsStaffRole(staffUsers[i].role)
    ensures r.Some? ==> exists i :: FirstStaff(staffUsers, i) && r.value == staffUsers[i].email
  {
    var staff := StaffOf(staffUsers);
    if staff != [] then Some(staff[0].email) else None
  }

  /** The report the new-ticket path posts. */
  function TicketFor(m: Message, clock: Clock, users: seq<User>, staffUsers: seq<User>): Report {
    var user := FindUser(users, m.from);
    Report(m.subject, m.text, m.from, clock.date, clock.time, "open",
           if user.Some? then user.value.branch else None,
           if user.Some? then user.value.department else None,
           Assignee(staffUsers))
  }

  /** The posted report carries the message's own fields and `open`, the branch and
      department of the first roster entry whose email is exactly the sender's
      (both unset when there is none), and the first admin or superadmin of the
      second roster read as assignee (unset when there is none). */
  lemma TicketFields(m: Message, clock: Clock, users: seq<User>, staffUsers: seq<User>)
    ensures var r := TicketFor(m, clock, users, staffUsers);
      r.issue == m.subject && r.description == m.text && r.reportedBy == m.from &&
      r.status == "open" && r.dateReported == clock.date && r.timeReported == clock.time
    ensures var r := TicketFor(m, clock, users, staffUsers);
      (exists i :: FirstWithEmail(users, m.from, i) &&
                   r.branch == users[i].branch && r.department == users[i].department) ||
      ((forall i :: 0 <= i < |users| ==> users[i].email != m.from) && r.branch == None && r.department == None)
    ensures var r := TicketFor(m, clock, users, staffUsers);
      (r.staff.Some? <==> exists i :: 0 <= i < |staffUsers| && IsStaffRole(staffUsers[i].role)) &&
      (r.staff.Some? ==> exists i :: FirstStaff(staffUsers, i) && r.staff.value == staffUsers[i].email)
  {
  }

  /** The notice is sent only after the creation answered 201 and only to a
      truthy (non-empty) assignee address. */
  function AssignmentNotice(report: Report, created: Option<Created>): seq<Action> {
    if created.Some? && created.value.status == 201 && report.staff.Some? && report.staff.value != "" then
      [SendAssignment(report.staff.value, AssignmentSubject(created.value.id, report.issue), report)]
    else []
  }

  /** The effects of the new-ticket path before the acknowledgement: nothing when a
      roster read threw, else the post and, when due, the notice. */
  function NewTicketActions(m: Message, replies: Replies, clock: Clock): seq<Action> {
    if replies.users.None? || replies.staffUsers.None? then []
    else
      var report := TicketFor(m, clock, replies.users.value, replies.staffUsers.value);
      [CreateReport(report)] + AssignmentNotice(report, replies.created)
  }

  /** Everything the handler does for message `seqno`, in order. */
  function Plan(seqno: nat, m: Message, replies: Replies, clock: Clock): seq<Action> {
    match Classify(m)
    case Resolution(id) => [UpdateReport(id, "resolved", clock.time, clock.date), MarkSeen(seqno)]
    case Skip => [MarkSeen(seqno)]
    case NewTicket => NewTicketActions(m, replies, clock) + [MarkSeen(seqno)]
  }

  /** The new-ticket effects are at most a post followed by a notice. */
  lemma NewTicketActionsShape(m: Message, replies: Replies, clock: Clock)
    ensures var pre := NewTicketActions(m, replies, clock);
      |pre| <= 2 && (replies.users.None? || replies.staffUsers.None? ==> pre == []) &&
      (|pre| >= 1 ==> pre[0].CreateReport?) && (|pre| == 2 ==> pre[1].SendAssignment?)
  {
  }

  /** On every path the `\Seen` flag is requested exactly once, as the last effect. */
  lemma AcknowledgedOnceLast(seqno: nat, m: Message, replies: Replies, clock: Clock)
    ensures var plan := Plan(seqno, m, replies, clock);
      |plan| >= 1 && plan[|plan| - 1] == MarkSeen(seqno) &&
      forall i :: 0 <= i < |plan| - 1 ==> !plan[i].MarkSeen?
  {
    if Classify(m).NewTicket? {
      NewTicketActionsShape(m, replies, clock);
    }
  }

  /** A status update is issued exactly for a resolution notice, and then it is the
      only effect besides the acknowledgement: `resolved` for the id from the subject. */
  lemma UpdateOnlyForResolution(seqno: nat, m: Message, replies: Replies, clock: Clock)
    ensures var plan := Plan(seqno, m, replies, clock);
      (exists i :: 0 <= i < |plan| && plan[i].UpdateReport?) <==> Classify(m).Resolution?
    ensures Classify(m).Resolution? ==>
      Plan(seqno, m, replies, clock) ==
        [UpdateReport(Classify(m).reportId, "resolved", clock.time, clock.date), MarkSeen(seqno)] &&
      Some(Classify(m).reportId) == ReplyTicketId(m.subject)
  {
    var plan := Plan(seqno, m, replies, clock);
    if Classify(m).Resolution? {
      assert plan[0].UpdateReport?;
    } else if Classify(m).NewTicket? {
      NewTicketActionsShape(m, replies, clock);
    }
  }

  /** A report is posted exactly when the message opens a ticket and both roster
      reads succeeded; the sender then ends with an allowed suffix, and the post is
      the first effect and the only one. */
  lemma CreateOnlyForAllowedSender(seqno: nat, m: Message, replies: Replies, clock: Clock)
    ensures var plan := Plan(seqno, m, replies, clock);
      (exists i :: 0 <= i < |plan| && plan[i].CreateReport?) <==>
        Classify(m).NewTicket? && replies.users.Some? && replies.staffUsers.Some?
    ensures var plan := Plan(seqno, m, replies, clock);
      forall i :: 0 <= i < |plan| && plan[i].CreateReport? ==>
        i == 0 && !Classify(m).Resolution? &&
        (EndsWith(m.from, "@gmail.com") || EndsWith(m.from, "@may-baker.com")) &&
        plan[i].report == TicketFor(m, clock, replies.users.value, replies.staffUsers.value)
  {
    var plan := Plan(seqno, m, replies, clock);
    if Classify(m).NewTicket? {
      var pre := NewTicketActions(m, replies, clock);
      PostInNewTicketActions(m, replies, clock);
      assert plan == pre + [MarkSeen(seqno)];
      assert forall i :: 0 <= i < |plan| && plan[i].CreateReport? ==> i < |pre| && plan[i] == pre[i];
      assert Classify(m).NewTicket? ==> !Classify(m).Skip?;
    } else if Classify(m).Resolution? {
      assert plan == [UpdateReport(Classify(m).reportId, "resolved", clock.time, clock.date), MarkSeen(seqno)];
    } else {
      assert plan == [MarkSeen(seqno)];
    }
  }

  /** Within the new-ticket effects, a post occurs exactly when both roster reads
      succeeded; it is then the first of them and carries `TicketFor`'s report. */
  lemma PostInNewTicketActions(m: Message, replies: Replies, clock: Clock)
    ensures var pre := NewTicketActions(m, replies, clock);
      (exists i :: 0 <= i < |pre| && pre[i].CreateReport?) <==> replies.users.Some? && replies.staffUsers.Some?
    ensures var pre := NewTicketActions(m, replies, clock);
      forall i :: 0 <= i < |pre| && pre[i].CreateReport? ==>
        i == 0 && replies.users.Some? && replies.staffUsers.Some? &&
        pre[i].report == TicketFor(m, clock, replies.users.value, replies.staffUsers.value)
  {
    var pre := NewTicketActions(m, replies, clock);
    if replies.users.Some? && replies.staffUsers.Some? {
      var report := TicketFor(m, clock, replies.users.value, replies.staffUsers.value);
      var notice := AssignmentNotice(report, replies.created);
      assert pre == [CreateReport(report)] + notice;
      assert forall k :: 0 <= k < |notice| ==> notice[k].SendAssignment?;
      assert pre[0].CreateReport?;
    }
  }

  /** A message that is not a resolution notice and fails the sender rule has no
      effect but its acknowledgement. */
  lemma BlockedSenderOnlyAcknowledged(seqno: nat, m: Message, replies: Replies, clock: Clock)
    requires !Classify(m).Resolution? && SenderBlocked(m.from)
    ensures Plan(seqno, m, replies, clock) == [MarkSeen(seqno)]
  {
    SenderBlockedIffNoAllowedSuffix(m.from);
  }

  /** Within the new-ticket path with both roster reads done, the plan is the post,
      then the notice if one is due, then the acknowledgement. */
  lemma NewTicketPlan(seqno: nat, m: Message, replies: Replies, clock: Clock)
    requires Classify(m).NewTicket? && replies.users.Some? && replies.staffUsers.Some?
    ensures var report := TicketFor(m, clock, replies.users.value, replies.staffUsers.value);
      Plan(seqno, m, replies, clock) ==
        [CreateReport(report)] + AssignmentNotice(report, replies.created) + [MarkSeen(seqno)]
  {
  }

  /** An assignment notice goes out exactly when the post answered 201 and an
      assignee with a non-empty address was found. */
  lemma NoticeOnlyAfterCreation(seqno: nat, m: Message, replies: Replies, clock: Clock)
    ensures var plan := Plan(seqno, m, replies, clock);
      (exists i :: 0 <= i < |plan| && plan[i].SendAssignment?) <==>
        Classify(m).NewTicket? && replies.users.Some? && replies.staffUsers.Some? &&
        replies.created.Some? && replies.created.value.status == 201 &&
        Assignee(replies.staffUsers.value).Some? && Assignee(replies.staffUsers.value).value != ""
  {
    var plan := Plan(seqno, m, replies, clock);
    if Classify(m).NewTicket? {
      NewTicketActionsShape(m, replies, clock);
      if replies.users.Some? && replies.staffUsers.Some? {
        NewTicketPlan(seqno, m, replies, clock);
        var report := TicketFor(m, clock, replies.users.value, replies.staffUsers.value);
        var notice := AssignmentNotice(report, replies.created);
        if notice != [] {
          assert plan[1] == notice[0];
        }
      }
    }
  }

  /** The notice follows the post of the same report, goes to that report's
      assignee, and its subject names the id the post returned. */
  lemma NoticeAddressing(seqno: nat, m: Message, replies: Replies, clock: Clock)
    ensures var plan := Plan(seqno, m, replies, clock);
      forall i :: 0 <= i < |plan| && plan[i].SendAssignment? ==>
        i == 1 && plan[0].CreateReport? && plan[i].report == plan[0].report &&
        Some(plan[i].to) == plan[i].report.staff && replies.created.Some? &&
        plan[i].subject == AssignmentSubject(replies.created.value.id, m.subject)
  {
    if Classify(m).NewTicket? {
      NewTicketActionsShape(m, replies, clock);
      if replies.users.Some? && replies.staffUsers.Some? {
        NewTicketPlan(seqno, m, replies, clock);
      }
    }
  }

  /** Replying to a notice the handler sent, with a body naming a resolution
      keyword, is classified as the resolution of the report that was created. */
  lemma NoticeReplyResolvesCreatedReport(seqno: nat, m: Message, replies: Replies, clock: Clock,
                                        i: int, from: string, body: string)
    requires 0 <= i < |Plan(seqno, m, replies, clock)| && Plan(seqno, m, replies, clock)[i].SendAssignment?
    requires IsResolutionBody(body)
    ensures replies.created.Some?
    ensures Classify(Message(from, "Re: " + Plan(seqno, m, replies, clock)[i].subject, body))
            == Resolution(DecimalString(replies.created.value.id))
  {
    NoticeAddressing(seqno, m, replies, clock);
    ReplyToAssignmentResolves(replies.created.value.id, m.subject, from, body);
  }

  /** Builds the report the way the handler does: the message's fields first, then
      the roster user's branch and department, then the assignee. */
  method BuildReport(m: Message, clock: Clock, users: seq<User>, staffUsers: seq<User>) returns (report: Report)
    ensures report == TicketFor(m, clock, users, staffUsers)
  {
    report := Report(m.subject, m.text, m.from, clock.date, clock.time, "open", None, None, None);
    var user := FindUser(users, m.from);
    if user.Some? {
      report := report.(branch := user.value.branch);
      report := report.(department := user.value.department);
    }
    var staff := StaffOf(staffUsers);
    if |staff| > 0 {
      report := report.(staff := Some(staff[0].email));
    }
  }

  /** The `\Seen` flag requests sent to the inbound mailbox and the log of outward
      effects, as the handler changes them. */
  class Mailroom {
    /** Sequence numbers of the messages whose `\Seen` flag was requested. */
    var requested: set<nat>
    /** Effects issued so far, oldest first. */
    var effects: seq<Action>

    constructor ()
      ensures requested == {} && effects == []
    {
      requested := {};
      effects := [];
    }

    /** `imap.addFlags(seqno, ['\Seen'], ...)`: the request is issued; its outcome is
        only logged by the handler. The flag string is `Seen` once JavaScript has read
        the escape; how the client library turns it into `\Seen` is not modelled. */
    method Acknowledge(seqno: nat)
      modifies this
      ensures requested == old(requested) + {seqno}
      ensures effects == old(effects) + [MarkSeen(seqno)]
    {
      requested := requested + {seqno};
      effects := effects + [MarkSeen(seqno)];
    }

    /** The new-ticket path up to the acknowledgement: read the roster twice, post
        the report, and notify the assignee once the post answered 201. A failed
        call ends the path without further effects. */
    method OpenTicket(m: Message, replies: Replies, clock: Clock)
      modifies this
      ensures requested == old(requested)
      ensures effects == old(effects) + NewTicketActions(m, replies, clock)
    {
      NewTicketActionsShape(m, replies, clock);
      if replies.users.Some? && replies.staffUsers.Some? {
        var report := BuildReport(m, clock, replies.users.value, replies.staffUsers.value);
        effects := effects + [CreateReport(report)];
        if replies.created.Some? && replies.created.value.status == 201 {
          if report.staff.Some? && report.staff.value != "" {
            var subject := AssignmentSubject(replies.created.value.id, report.issue);
            effects := effects + [SendAssignment(report.staff.value, subject, report)];
          }
        }
      }
    }

    /** The `simpleParser` callback for message `seqno`: its effects are those of
        `Plan`, and the `\Seen` flag of the message has been requested. */
    method HandleParsed(seqno: nat, m: Message, replies: Replies, clock: Clock)
      modifies this
      ensures requested == old(requested) + {seqno}
      ensures effects == old(effects) + Plan(seqno, m, replies, clock)
    {
      var replyMatch := ReplyTicketId(m.subject);
      var isResolution := IsResolutionBody(m.text);
      if replyMatch.Some? && isResolution {
        assert Classify(m) == Resolution(replyMatch.value);
        effects := effects + [UpdateReport(replyMatch.value, "resolved", clock.time, clock.date)];
        Acknowledge(seqno);
        return;
      }
      if SenderBlocked(m.from) {
        assert Classify(m) == Skip;
        Acknowledge(seqno);
        return;
      }
      assert Classify(m) == NewTicket;
      OpenTicket(m, replies, clock);
      Acknowledge(seqno);
    }
  }
}
