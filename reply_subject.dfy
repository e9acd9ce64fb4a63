/** The subject of an assignment notice and the regular expression that recognises
    a reply to one: `/Re: New Helpdesk Request Assigned \(ID: (\d+)\):/`. */
module ReplySubject {
  import opened Options
  import opened Text

  /** The fixed text every assignment notice subject starts with. */
  const AssignedMarker: string := "New Helpdesk Request Assigned (ID: "

  /** The literal part of the reply pattern that comes before the `(\d+)` group. */
  const ReplyMarker: string := "Re: " + AssignedMarker

  /** Subject of the notice sent to the assignee of newly created report `id`. */
  function AssignmentSubject(id: nat, issue: string): string {
    AssignedMarker + DecimalString(id) + "): " + issue
  }

  /** Length of the run of digits at the start of `s`; the greedy `\d+` takes all of it. */
  function DigitRun(s: string): (k: nat)
    ensures k <= |s| && AllDigits(s[..k])
    ensures k < |s| ==> !IsDigit(s[k])
  {
    if s != [] && IsDigit(s[0]) then
      var k := 1 + DigitRun(s[1..]);
      assert s[..k] == [s[0]] + s[1..][..k - 1];
      k
    else 0
  }

  /** Where the digit group starts for a match at position `p`. */
  function GroupStart(p: nat): nat {
    p + |ReplyMarker|
  }

  /** The pattern, read as a regular expression with a digit group of length `k`,
      matches `s` at position `p`. */
  ghost predicate RegexMatch(s: string, p: nat, k: nat) {
    var q := GroupStart(p);
    q + k + 2 <= |s| && s[p..q] == ReplyMarker &&
    k >= 1 && AllDigits(s[q..q + k]) && s[q + k] == ')' && s[q + k + 1] == ':'
  }

  /** The pattern matches `s` at position `p`, decided the way a backtracking
      matcher does: marker, maximal digit run of length at least one, then `):`. */
  predicate MatchesAt(s: string, p: nat) {
    var q := GroupStart(p);
    q <= |s| && s[p..q] == ReplyMarker &&
    var k := DigitRun(s[q..]);
    k >= 1 && "):" <= s[q + k..]
  }

  /** The digits `(\d+)` captures for a match at `p`. */
  function Capture(s: string, p: nat): string
    requires MatchesAt(s, p)
  {
    var q := GroupStart(p);
    s[q..q + DigitRun(s[q..])]
  }

  /** `MatchesAt` is the regular expression's meaning: a match at `p` exists for
      some group length exactly when `MatchesAt` holds, and the group length is then
      forced, so the capture is unique. */
  lemma MatchesAtIsRegex(s: string, p: nat)
    ensures MatchesAt(s, p) <==> exists k: nat :: RegexMatch(s, p, k)
    ensures forall k: nat :: RegexMatch(s, p, k) ==> Capture(s, p) == s[GroupStart(p)..GroupStart(p) + k]
  {
    var q := GroupStart(p);
    if MatchesAt(s, p) {
      var k := DigitRun(s[q..]);
      assert s[q..][..k] == s[q..q + k];
      assert s[q + k..][0] == s[q + k] && s[q + k..][1] == s[q + k + 1];
      assert RegexMatch(s, p, k);
    }
    forall k: nat | RegexMatch(s, p, k)
      ensures MatchesAt(s, p) && Capture(s, p) == s[q..q + k]
    {
      assert s[q..][..k] == s[q..q + k];
      RegexGroupIsDigitRun(s[q..], k);
      assert s[q + k..][..2] == [s[q + k], s[q + k + 1]];
    }
  }

  /** A group of `k` digits followed by `)` is the whole leading digit run. */
  lemma RegexGroupIsDigitRun(t: string, k: nat)
    requires k + 1 < |t| && AllDigits(t[..k]) && t[k] == ')'
    ensures DigitRun(t) == k
  {
  }

  /** The digits captured by a match form a non-empty digit run. */
  lemma CaptureIsDigits(s: string, p: nat)
    requires MatchesAt(s, p)
    ensures |Capture(s, p)| >= 1 && AllDigits(Capture(s, p))
  {
    var q := GroupStart(p);
    assert Capture(s, p) == s[q..][..DigitRun(s[q..])];
  }

  /** Leftmost match at or after `from`, as `String.prototype.match` finds it. */
  function LeftmostMatch(s: string, from: nat): (r: Option<nat>)
    requires from <= |s|
    ensures r.Some? ==> from <= r.value <= |s| && MatchesAt(s, r.value)
    ensures r.Some? ==> forall p :: from <= p < r.value ==> !MatchesAt(s, p)
    ensures r.None? ==> forall p :: from <= p <= |s| ==> !MatchesAt(s, p)
    decreases |s| - from
  {
    if MatchesAt(s, from) then Some(from)
    else if from == |s| then None
    else LeftmostMatch(s, from + 1)
  }

  /** `subject.match(...)`, reduced to what the handler uses of it: the captured
      ticket id of the leftmost match, or nothing when the pattern does not occur. */
  function ReplyTicketId(subject: string): (r: Option<string>)
    ensures r.Some? ==> |r.value| >= 1 && AllDigits(r.value)
  {
    match LeftmostMatch(subject, 0)
    case Some(p) =>
      CaptureIsDigits(subject, p);
      Some(Capture(subject, p))
    case None => None
  }

  /** The id is found exactly when the pattern occurs in the subject, and it is the
      capture of the leftmost occurrence. */
  lemma ReplyTicketIdIsLeftmostCapture(subject: string)
    ensures ReplyTicketId(subject).None? <==> forall p: nat :: p <= |subject| ==> !MatchesAt(subject, p)
    ensures ReplyTicketId(subject).Some? ==>
      exists p: nat :: p <= |subject| && MatchesAt(subject, p) && ReplyTicketId(subject).value == Capture(subject, p) &&
                       forall p': nat :: p' < p ==> !MatchesAt(subject, p')
  {
  }

  /** The reply a mail client makes to an assignment notice (`Re: ` + subject) is
      recognised, and the id it yields is the decimal text of the report id sent. */
  lemma ReplyToAssignmentYieldsId(id: nat, issue: string)
    ensures ReplyTicketId("Re: " + AssignmentSubject(id, issue)) == Some(DecimalString(id))
  {
    var d := DecimalString(id);
    var s := "Re: " + AssignmentSubject(id, issue);
    var q := GroupStart(0);
    assert s == ReplyMarker + d + "): " + issue;
    assert s[0..q] == ReplyMarker;
    assert s[q..] == d + "): " + issue;
    assert (d + "): " + issue)[..|d|] == d;
    RegexGroupIsDigitRun(s[q..], |d|);
    assert s[q + |d|..] == "): " + issue;
    assert MatchesAt(s, 0);
    assert Capture(s, 0) == d;
  }
}
