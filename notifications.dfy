/**
 * The pure parts of the notification sender: the subject line every email
 * carries, and the reasons list a reject email puts in place of its
 * placeholder.
 */
module Notifications {
  import opened Records

  const SubjectPrefix: string := "CleanBC Go Electric - Application #"

  /** The subject suffixes the senders pass. */
  const ApprovedSuffix: string := " \U{2013} Approved"
  const RejectSuffix: string := " \U{2013} Identity cannot be verified"
  const ExpiredSuffix: string := " \U{2013} Expired"
  const ExpiryWarningSuffix: string := " \U{2013} Will expire in 2 weeks"

  /** The subject line of an email about application `applicationId`. */
  function Subject(applicationId: AppId, optionalSubject: string): (subject: string)
    ensures |subject| == |SubjectPrefix| + |applicationId| + |optionalSubject|
    ensures subject[..|SubjectPrefix|] == SubjectPrefix
    ensures subject[|SubjectPrefix|..|subject| - |optionalSubject|] == applicationId
    ensures subject[|subject| - |optionalSubject|..] == optionalSubject
  {
    SubjectPrefix + applicationId + optionalSubject
  }

  /** Recovers the application id from a subject built with the given suffix. */
  function SubjectApplicationId(subject: string, optionalSubject: string): (r: Option<AppId>)
    ensures r.Some? ==> Subject(r.value, optionalSubject) == subject
  {
    if |subject| >= |SubjectPrefix| + |optionalSubject|
       && subject[..|SubjectPrefix|] == SubjectPrefix
       && subject[|subject| - |optionalSubject|..] == optionalSubject
    then
      var id := subject[|SubjectPrefix|..|subject| - |optionalSubject|];
      assert subject == subject[..|SubjectPrefix|] + id + subject[|subject| - |optionalSubject|..];
      Some(id)
    else None
  }

  /** The subject names the application: its id can be read back from it. */
  lemma SubjectNamesApplication(applicationId: AppId, optionalSubject: string)
    ensures SubjectApplicationId(Subject(applicationId, optionalSubject), optionalSubject) == Some(applicationId)
  {
  }

  /** The subject suffix of the sender a queued task calls. */
  function SubjectSuffix(t: Task): string
  {
    match t
    case SendApprove(_, _, _) => ApprovedSuffix
    case SendExpired(_, _) => ExpiredSuffix
    case SendExpiryWarning(_, _) => ExpiryWarningSuffix
  }

  /** The subject line of the email a queued task sends: it names the task's application. */
  function TaskSubject(t: Task): (subject: string)
    ensures SubjectApplicationId(subject, SubjectSuffix(t)) == Some(t.applicationId)
  {
    SubjectNamesApplication(t.applicationId, SubjectSuffix(t));
    Subject(t.applicationId, SubjectSuffix(t))
  }

  /** The subject line of a reject email: it names the application, and ends in the reject suffix. */
  function RejectSubject(applicationId: AppId): (subject: string)
    ensures SubjectApplicationId(subject, RejectSuffix) == Some(applicationId)
    ensures subject[|subject| - |RejectSuffix|..] == RejectSuffix
  {
    SubjectNamesApplication(applicationId, RejectSuffix);
    Subject(applicationId, RejectSuffix)
  }

  /** Python's `str.split(sep)`: the pieces between the separators, always at least one. */
  function Split(s: string, sep: char): (parts: seq<string>)
    ensures |parts| >= 1
    decreases |s|
  {
    if s == [] then [""]
    else if s[0] == sep then [""] + Split(s[1..], sep)
    else
      var rest := Split(s[1..], sep);
      [[s[0]] + rest[0]] + rest[1..]
  }

  /** Python's `glue.join(parts)`. */
  function Join(parts: seq<string>, glue: string): string
  {
    if parts == [] then ""
    else if |parts| == 1 then parts[0]
    else parts[0] + glue + Join(parts[1..], glue)
  }

  /** Number of occurrences of `c` in `s`. */
  function Count(s: string, c: char): nat
  {
    if s == [] then 0 else (if s[0] == c then 1 else 0) + Count(s[1..], c)
  }

  /** Prefixing the first piece with a character prefixes the joined text with it. */
  lemma JoinPrepend(c: char, rest: seq<string>, glue: string)
    requires |rest| >= 1
    ensures Join([[c] + rest[0]] + rest[1..], glue) == [c] + Join(rest, glue)
  {
    var parts := [[c] + rest[0]] + rest[1..];
    assert parts[1..] == rest[1..];
    if |rest| > 1 {
      assert Join(parts, glue) == [c] + rest[0] + glue + Join(rest[1..], glue);
    }
  }

  /** Splitting yields one piece more than there are separators, no piece holds the separator,
      and joining the pieces with the separator gives the input back. */
  lemma {:induction false} SplitJoin(s: string, sep: char)
    ensures |Split(s, sep)| == Count(s, sep) + 1
    ensures forall p :: p in Split(s, sep) ==> sep !in p
    ensures Join(Split(s, sep), [sep]) == s
  {
    if s != [] {
      SplitJoin(s[1..], sep);
      var rest := Split(s[1..], sep);
      if s[0] == sep {
        assert Split(s, sep) == [""] + rest;
        assert ([""] + rest)[1..] == rest;
        assert s == [sep] + s[1..];
      } else {
        var parts := Split(s, sep);
        assert parts == [[s[0]] + rest[0]] + rest[1..];
        forall p | p in parts ensures sep !in p {
          if p != parts[0] { assert p in rest; }
          else { assert rest[0] in rest; }
        }
        JoinPrepend(s[0], rest, [sep]);
        assert s == [s[0]] + s[1..];
      }
    }
  }

  /** One list item. */
  function Item(piece: string): string
  {
    "<li>" + piece + "</li>"
  }

  /** One list item per piece, in order. */
  function Items(parts: seq<string>): string
  {
    if parts == [] then "" else Item(parts[0]) + Items(parts[1..])
  }

  /** The reasons list of a reject email: the reasons for decline split at `;`, joined with
      `</li><li>` and wrapped in `<li>`...`</li>`. */
  function ReasonsList(reasonForDecline: string): (r: string)
    ensures reasonForDecline == "" ==> r == Item("")
  {
    "<li>" + Join(Split(reasonForDecline, ';'), "</li><li>") + "</li>"
  }

  lemma {:induction false} WrappedJoinIsItems(parts: seq<string>)
    requires |parts| >= 1
    ensures "<li>" + Join(parts, "</li><li>") + "</li>" == Items(parts)
  {
    if |parts| > 1 {
      WrappedJoinIsItems(parts[1..]);
      assert Items(parts) == Item(parts[0]) + Items(parts[1..]);
    } else {
      assert Items(parts[1..]) == "";
    }
  }

  /** The reasons list holds one `<li>` item per `;`-separated reason, in the original order;
      no item contains a `;`, and there is one more item than there are separators. */
  lemma ReasonsListItems(reasonForDecline: string)
    ensures var pieces := Split(reasonForDecline, ';');
      && ReasonsList(reasonForDecline) == Items(pieces)
      && |pieces| == Count(reasonForDecline, ';') + 1
      && (forall p :: p in pieces ==> ';' !in p)
      && Join(pieces, ";") == reasonForDecline
  {
    WrappedJoinIsItems(Split(reasonForDecline, ';'));
    SplitJoin(reasonForDecline, ';');
  }

  /** `pat` occurs in `s` at position `i`. */
  predicate OccursAt(s: string, pat: string, i: nat)
  {
    i + |pat| <= |s| && s[i..i + |pat|] == pat
  }

  /** Python's `s.replace(pat, rep)` for a non-empty pattern: every occurrence, scanning left to
      right without overlap, is replaced; the replacement text is not scanned again. */
  function ReplaceAll(s: string, pat: string, rep: string): (r: string)
    requires pat != ""
    ensures |pat| == |rep| ==> |r| == |s|
    ensures |s| < |pat| ==> r == s
    decreases |s|
  {
    if |s| < |pat| then s
    else if s[..|pat|] == pat then rep + ReplaceAll(s[|pat|..], pat, rep)
    else [s[0]] + ReplaceAll(s[1..], pat, rep)
  }

  /** Text without an occurrence of the pattern is left as it is. */
  lemma {:induction false} ReplaceAbsent(s: string, pat: string, rep: string)
    requires pat != ""
    requires forall i: nat :: !OccursAt(s, pat, i)
    ensures ReplaceAll(s, pat, rep) == s
  {
    if |s| >= |pat| {
      assert !OccursAt(s, pat, 0);
      forall i: nat ensures !OccursAt(s[1..], pat, i) {
        assert !OccursAt(s, pat, i + 1);
        if i + |pat| <= |s[1..]| {
          assert s[1..][i..i + |pat|] == s[i + 1..i + 1 + |pat|];
        }
      }
      ReplaceAbsent(s[1..], pat, rep);
    }
  }

  /** Dropping the first character of the text before the pattern keeps it free of occurrences. */
  lemma NoEarlierOccurrence(pre: string, pat: string, post: string)
    requires pre != []
    requires forall i: nat :: i < |pre| ==> !OccursAt(pre + pat + post, pat, i)
    ensures forall i: nat :: i < |pre[1..]| ==> !OccursAt(pre[1..] + pat + post, pat, i)
  {
    var s := pre + pat + post;
    assert s[1..] == pre[1..] + pat + post;
    forall i: nat | i < |pre[1..]| ensures !OccursAt(pre[1..] + pat + post, pat, i) {
      assert !OccursAt(s, pat, i + 1);
      if i + |pat| <= |s[1..]| {
        assert s[1..][i..i + |pat|] == s[i + 1..i + 1 + |pat|];
      }
    }
  }

  /** In a template with a single occurrence of the pattern, that occurrence, and only it, is
      replaced. */
  lemma {:induction false} ReplaceSingle(pre: string, pat: string, post: string, rep: string)
    requires pat != ""
    requires forall i: nat :: i < |pre| ==> !OccursAt(pre + pat + post, pat, i)
    requires forall i: nat :: !OccursAt(post, pat, i)
    ensures ReplaceAll(pre + pat + post, pat, rep) == pre + rep + post
  {
    var s := pre + pat + post;
    if pre == [] {
      assert s[..|pat|] == pat;
      assert s[|pat|..] == post;
      ReplaceAbsent(post, pat, rep);
    } else {
      assert !OccursAt(s, pat, 0);
      assert s[1..] == pre[1..] + pat + post;
      NoEarlierOccurrence(pre, pat, post);
      ReplaceSingle(pre[1..], pat, post, rep);
      assert [s[0]] + (pre[1..] + rep + post) == pre + rep + post;
    }
  }

  const ReasonsPlaceholder: string := "<li>reasons</li>"

  /** The body of a reject email: the template with its placeholder replaced by the reasons list;
      a template without the placeholder is sent as it is. */
  function RejectMessage(template: string, reasonForDecline: string): (body: string)
    ensures (forall i: nat | i < |template| :: !OccursAt(template, ReasonsPlaceholder, i)) ==> body == template
  {
    if forall i: nat | i < |template| :: !OccursAt(template, ReasonsPlaceholder, i) then
      ReplaceAbsent(template, ReasonsPlaceholder, ReasonsList(reasonForDecline));
      ReplaceAll(template, ReasonsPlaceholder, ReasonsList(reasonForDecline))
    else
      ReplaceAll(template, ReasonsPlaceholder, ReasonsList(reasonForDecline))
  }

  /** For a template that holds the placeholder once, the reject body is the template with the
      reasons list, one item per reason, in the placeholder's place. */
  lemma RejectMessageFillsPlaceholder(pre: string, post: string, reasonForDecline: string)
    requires forall i: nat :: i < |pre| ==> !OccursAt(pre + ReasonsPlaceholder + post, ReasonsPlaceholder, i)
    requires forall i: nat :: !OccursAt(post, ReasonsPlaceholder, i)
    ensures RejectMessage(pre + ReasonsPlaceholder + post, reasonForDecline)
      == pre + Items(Split(reasonForDecline, ';')) + post
  {
    ReplaceSingle(pre, ReasonsPlaceholder, post, ReasonsList(reasonForDecline));
    ReasonsListItems(reasonForDecline);
  }
}
