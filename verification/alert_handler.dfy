/** The Telegram text of one Alertmanager alert (`formatAlertMessage` in
    `internal/bot/alert_handler.go`). */
module Alerts {
  /** One alert: its status and its label and annotation maps. */
  datatype Alert = Alert(status: string, labels: map<string, string>, annotations: map<string, string>)

  const Firing := "FIRING"
  const FiringLower := "firing"
  const FiringIcon := '🔥'
  const ResolvedIcon := '✅'
  const DescriptionHeading := "**Description**: "
  const ServiceHeading := "**Service**: `"

  /** A Go map read: the value, or "" for a missing key. */
  function Lookup(m: map<string, string>, key: string): (v: string)
    ensures key !in m ==> v == ""
    ensures key in m ==> v == m[key]
  {
    if key in m then m[key] else ""
  }

  predicate IsLower(c: char) {
    'a' <= c <= 'z'
  }

  function UpperChar(c: char): (u: char)
    ensures !IsLower(u)
  {
    if IsLower(c) then (c as int - 32) as char else c
  }

  /** `strings.ToUpper`, on ASCII letters. */
  function ToUpper(s: string): (r: string)
    ensures |r| == |s|
    ensures forall i :: 0 <= i < |s| ==> r[i] == UpperChar(s[i])
    decreases |s|
  {
    if |s| == 0 then "" else [UpperChar(s[0])] + ToUpper(s[1..])
  }

  /** Upper-casing gives the capital letter `u` exactly from `u` itself and
      from its lower-case partner `l`. */
  lemma {:induction false} UpperCharIs(c: char, u: char, l: char)
    requires 'A' <= u <= 'Z' && l as int == u as int + 32
    ensures UpperChar(c) == u <==> c == u || c == l
  {
  }

  /** Two strings upper-case to the same text exactly when they agree
      character by character after upper-casing. */
  lemma {:induction false} ToUpperEquals(s: string, t: string)
    ensures ToUpper(s) == t <==> |s| == |t| && forall i :: 0 <= i < |s| ==> UpperChar(s[i]) == t[i]
  {
    var r := ToUpper(s);
    if |s| == |t| && forall i :: 0 <= i < |s| ==> UpperChar(s[i]) == t[i] {
      assert forall i :: 0 <= i < |s| ==> r[i] == t[i];
    }
  }

  /** Each letter of "firing" is the lower-case partner of the capital in
      "FIRING". */
  lemma {:induction false} FiringLetters()
    ensures |Firing| == |FiringLower| == 6
    ensures forall i :: 0 <= i < 6 ==> 'A' <= Firing[i] <= 'Z' && FiringLower[i] as int == Firing[i] as int + 32
  {
    assert Firing == ['F', 'I', 'R', 'I', 'N', 'G'];
    assert FiringLower == ['f', 'i', 'r', 'i', 'n', 'g'];
  }

  /** A status counts as firing exactly when it spells FIRING in any mix of
      upper and lower case. */
  lemma {:induction false} FiringAnyCase(s: string)
    ensures ToUpper(s) == Firing <==>
            |s| == |Firing| && forall i :: 0 <= i < |s| ==> s[i] == Firing[i] || s[i] == FiringLower[i]
  {
    ToUpperEquals(s, Firing);
    FiringLetters();
    if |s| == |Firing| {
      forall i | 0 <= i < |s|
        ensures UpperChar(s[i]) == Firing[i] <==> s[i] == Firing[i] || s[i] == FiringLower[i]
      {
        UpperCharIs(s[i], Firing[i], FiringLower[i]);
      }
    }
  }

  function Icon(status: string): char {
    if ToUpper(status) == Firing then FiringIcon else ResolvedIcon
  }

  function HeaderLine(a: Alert): string {
    [Icon(a.status)] + " **" + ToUpper(a.status) + "** (" + Lookup(a.labels, "severity") + ")\n\n"
  }

  function SummaryLine(a: Alert): string {
    "**Summary**: " + Lookup(a.annotations, "summary") + "\n"
  }

  function DescriptionLine(a: Alert): string {
    var description := Lookup(a.annotations, "description");
    if description != "" then DescriptionHeading + (description + "\n") else ""
  }

  function ServiceLine(a: Alert): string {
    var job := Lookup(a.labels, "job");
    if job != "" then ServiceHeading + (job + "`\n") else ""
  }

  /** `formatAlertMessage`. */
  function FormatAlertMessage(a: Alert): (msg: string)
    ensures HeaderLine(a) + SummaryLine(a) <= msg
  {
    HeaderLine(a) + (SummaryLine(a) + (DescriptionLine(a) + ServiceLine(a)))
  }

  /** The message opens with the fire icon exactly when the upper-cased status
      is FIRING, and with the check mark otherwise, followed by the
      upper-cased status in bold and the severity. */
  lemma {:induction false} AlertHeader(a: Alert)
    ensures var msg := FormatAlertMessage(a);
            (msg[0] == FiringIcon <==> ToUpper(a.status) == Firing) &&
            (msg[0] != FiringIcon ==> msg[0] == ResolvedIcon) &&
            [msg[0]] + " **" + ToUpper(a.status) + "** (" + Lookup(a.labels, "severity") + ")\n\n" <= msg
  {
    var msg := FormatAlertMessage(a);
    assert msg == HeaderLine(a) + (SummaryLine(a) + (DescriptionLine(a) + ServiceLine(a)));
    assert msg[0] == Icon(a.status);
  }

  /** The description line is there exactly when the description is
      non-empty, and without it the service line, if any, follows at once. */
  lemma {:induction false} DescriptionIffNonEmpty(a: Alert)
    ensures var rest := DescriptionLine(a) + ServiceLine(a);
            var description := Lookup(a.annotations, "description");
            var job := Lookup(a.labels, "job");
            (description != "" <==> DescriptionHeading <= rest) &&
            (description == "" && job != "" ==> ServiceHeading <= rest) &&
            (description == "" && job == "" ==> rest == "")
  {
    var rest := DescriptionLine(a) + ServiceLine(a);
    if Lookup(a.annotations, "description") == "" {
      assert rest == ServiceLine(a);
      if Lookup(a.labels, "job") != "" {
        assert rest[2] == 'S' != DescriptionHeading[2];
      }
    } else {
      assert rest == DescriptionHeading + (Lookup(a.annotations, "description") + "\n" + ServiceLine(a));
    }
  }

  /** With a job label the message ends with the service line naming it;
      without one it ends with the description line (or the summary). */
  lemma {:induction false} ServiceLast(a: Alert)
    ensures var msg := FormatAlertMessage(a);
            var job := Lookup(a.labels, "job");
            var service := ServiceHeading + job + "`\n";
            (job != "" ==> |service| <= |msg| && msg[|msg| - |service|..] == service) &&
            (job == "" ==> msg == HeaderLine(a) + (SummaryLine(a) + DescriptionLine(a)))
  {
    var job := Lookup(a.labels, "job");
    var msg := FormatAlertMessage(a);
    if job != "" {
      var front := HeaderLine(a) + (SummaryLine(a) + DescriptionLine(a));
      var service := ServiceHeading + (job + "`\n");
      assert ServiceLine(a) == service;
      assert msg == front + service;
      assert msg[|front|..] == service;
    }
  }

  /** After the header comes the summary line, always, even for an empty
      summary. Then the description line, present if and only if the
      description is non-empty; then the service line, present if and only if
      the job label is non-empty, and last. */
  lemma {:induction false} AlertSections(a: Alert)
    ensures var msg := FormatAlertMessage(a);
            var head := HeaderLine(a) + SummaryLine(a);
            var description := Lookup(a.annotations, "description");
            var job := Lookup(a.labels, "job");
            var service := ServiceHeading + job + "`\n";
            head <= msg &&
            var rest := msg[|head|..];
            (description != "" <==> DescriptionHeading <= rest) &&
            (description == "" && job != "" ==> ServiceHeading <= rest) &&
            (description == "" && job == "" ==> rest == "") &&
            (job != "" ==> |service| <= |msg| && msg[|msg| - |service|..] == service)
  {
    var msg := FormatAlertMessage(a);
    var head := HeaderLine(a) + SummaryLine(a);
    var tail := DescriptionLine(a) + ServiceLine(a);
    assert msg == head + tail;
    assert msg[|head|..] == tail;
    DescriptionIffNonEmpty(a);
    ServiceLast(a);
  }
}
