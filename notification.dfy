/** The notification mail of mail.py: the HTML body, the Subject, From and
    To headers, and the SMTP envelope. Delivery itself is not modelled. */
module Notification {
  import opened Wrappers
  import opened Text

  /** A Python value that may reach the `sender_displayname` parameter: a
      string, or `None` when the configuration has no such key. */
  datatype PyValue = PyStr(text: string) | PyNone

  /** How the display name reaches `send_notification`: left to the
      parameter's default, or passed explicitly. */
  datatype DisplayNameArg = DefaultName | Given(value: PyValue)

  const DefaultDisplayName: string := "MediCat Torrent Updater"

  /** The text an f-string interpolates for a value: `str(None)` is "None". */
  function Interpolate(v: PyValue): (r: string)
    ensures r == "None" <==> v == PyNone || v == PyStr("None")
  {
    match v
    case PyStr(t) => t
    case PyNone => "None"
  }

  /** The display name the message shows. */
  function DisplayName(arg: DisplayNameArg): (r: string)
    ensures r == DefaultDisplayName <==> arg == DefaultName || arg == Given(PyStr(DefaultDisplayName))
  {
    match arg
    case DefaultName => DefaultDisplayName
    case Given(v) => Interpolate(v)
  }

  /** The fixed pieces of the body template, in order. */
  const Opening: string :=
    "\n<!doctype html>\n<html>\n<head></head>\n<body>\n" +
    "<p><b>Hallo!</b></p>\n<p>\nMedicat wurde von <code>"
  const BeforeNew: string := "</code> auf Version <code>"
  const BeforeTable: string :=
    "</code> aktualisiert!<br/>\n" +
    "Die neue Version wurde zu qBittorrent hinzugefügt, " +
    "läd nun herunter und wird in Kürze geseedet.\n</p>\n" +
    "<p>\nIn qBittorrent sind nun folgende Versionen " +
    "enthalten:\n</p>\n\n<div>\n"
  const BeforeName: string := "\n</div>\n\n<p>MfG,<br/>\n~ "
  const Closing: string := "!</p>\n</body>\n</html>"

  /** The template between the two versions and the table, with the new
      version filled in. */
  function Middle(newVersion: string): string
  {
    BeforeNew + newVersion + BeforeTable
  }

  /** The template up to the table, with both versions filled in. */
  function Lead(oldVersion: string, newVersion: string): string
  {
    Opening + oldVersion + Middle(newVersion)
  }

  /** The template after the table, with the display name filled in. */
  function Signature(name: string): string
  {
    BeforeName + name + Closing
  }

  /** The HTML body: old version, new version, the table and the display
      name, each dropped into the template as given. */
  function Body(oldVersion: string, newVersion: string, table: string, name: string): string
  {
    Lead(oldVersion, newVersion) + table + Signature(name)
  }

  /** Where the table starts in the body. */
  function TableOffset(oldVersion: string, newVersion: string): nat
  {
    |Opening| + |oldVersion| + |BeforeNew| + |newVersion| + |BeforeTable|
  }

  lemma SliceMiddle(a: string, m: string, b: string)
    ensures (a + m + b)[|a|..|a| + |m|] == m
  {
  }

  lemma SliceHead(a: string, m: string, b: string)
    ensures (a + m + b)[..|a|] == a
  {
  }

  lemma SliceInTail(a: string, b: string, i: nat, j: nat)
    requires i <= j <= |b|
    ensures (a + b)[|a| + i..|a| + j] == b[i..j]
  {
  }

  /** The body carries the table verbatim, at a place fixed by the template
      and the two versions. */
  lemma BodyEmbedsTable(oldVersion: string, newVersion: string, table: string, name: string)
    ensures var body := Body(oldVersion, newVersion, table, name);
      var k := TableOffset(oldVersion, newVersion);
      k + |table| <= |body| && body[k..k + |table|] == table
  {
    SliceMiddle(Lead(oldVersion, newVersion), table, Signature(name));
  }

  /** A slice inside a prefix of `s` is the same slice of that prefix. */
  lemma SliceWithinPrefix(s: string, t: string, i: nat, j: nat)
    requires |t| <= |s| && s[..|t|] == t && i <= j <= |t|
    ensures s[i..j] == t[i..j]
  {
    forall k | 0 <= k < j - i ensures s[i..j][k] == t[i..j][k] {
      assert s[..|t|][i + k] == s[i + k];
    }
  }

  /** The body begins with the lead. */
  lemma BodyStartsWithLead(oldVersion: string, newVersion: string, table: string, name: string)
    ensures var lead := Lead(oldVersion, newVersion);
      |lead| <= |Body(oldVersion, newVersion, table, name)| &&
      Body(oldVersion, newVersion, table, name)[..|lead|] == lead
  {
    SliceHead(Lead(oldVersion, newVersion), table, Signature(name));
  }

  lemma LeadEmbedsOldVersion(oldVersion: string, newVersion: string)
    ensures var lead := Lead(oldVersion, newVersion);
      |Opening| + |oldVersion| <= |lead| && lead[..|Opening|] == Opening &&
      lead[|Opening|..|Opening| + |oldVersion|] == oldVersion
  {
    SliceMiddle(Opening, oldVersion, Middle(newVersion));
    SliceHead(Opening, oldVersion, Middle(newVersion));
  }

  lemma LeadEmbedsNewVersion(oldVersion: string, newVersion: string)
    ensures var lead, k := Lead(oldVersion, newVersion), |Opening| + |oldVersion| + |BeforeNew|;
      k + |newVersion| <= |lead| && lead[k..k + |newVersion|] == newVersion
  {
    SliceMiddle(BeforeNew, newVersion, BeforeTable);
    SliceInTail(Opening + oldVersion, Middle(newVersion), |BeforeNew|, |BeforeNew| + |newVersion|);
  }

  /** The body opens with the fixed greeting and carries the old version
      verbatim right after it. */
  lemma BodyEmbedsOldVersion(oldVersion: string, newVersion: string, table: string, name: string)
    ensures var body := Body(oldVersion, newVersion, table, name);
      IsPrefix(Opening, body) && body[|Opening|..|Opening| + |oldVersion|] == oldVersion
  {
    var lead := Lead(oldVersion, newVersion);
    var body := Body(oldVersion, newVersion, table, name);
    BodyStartsWithLead(oldVersion, newVersion, table, name);
    LeadEmbedsOldVersion(oldVersion, newVersion);
    SliceWithinPrefix(body, lead, 0, |Opening|);
    SliceWithinPrefix(body, lead, |Opening|, |Opening| + |oldVersion|);
  }

  /** The new version sits verbatim just before the text that leads to the
      table. */
  lemma BodyEmbedsNewVersion(oldVersion: string, newVersion: string, table: string, name: string)
    ensures var body := Body(oldVersion, newVersion, table, name);
      var k := |Opening| + |oldVersion| + |BeforeNew|;
      k + |newVersion| <= |body| && body[k..k + |newVersion|] == newVersion
  {
    var k := |Opening| + |oldVersion| + |BeforeNew|;
    BodyStartsWithLead(oldVersion, newVersion, table, name);
    LeadEmbedsNewVersion(oldVersion, newVersion);
    SliceWithinPrefix(Body(oldVersion, newVersion, table, name), Lead(oldVersion, newVersion), k, k + |newVersion|);
  }

  /** The display name sits verbatim just before the closing text. */
  lemma BodyEmbedsName(oldVersion: string, newVersion: string, table: string, name: string)
    ensures var body := Body(oldVersion, newVersion, table, name);
      |Closing| + |name| <= |body| && body[|body| - |Closing| - |name|..|body| - |Closing|] == name
  {
    SliceMiddle(BeforeName, name, Closing);
    SliceInTail(Lead(oldVersion, newVersion) + table, Signature(name), |BeforeName|, |BeforeName| + |name|);
  }

  /** Different tables give different bodies for the same versions and name:
      nothing of the table is lost or altered. */
  lemma BodyDeterminesTable(o: string, n: string, t1: string, t2: string, name: string)
    requires Body(o, n, t1, name) == Body(o, n, t2, name)
    ensures t1 == t2
  {
    BodyEmbedsTable(o, n, t1, name);
    BodyEmbedsTable(o, n, t2, name);
  }

  /** `Medicat Update <old> -> <new>`. */
  function Subject(oldVersion: string, newVersion: string): string
  {
    "Medicat Update " + oldVersion + " -> " + newVersion
  }

  const SubjectLead: string := "Medicat Update "
  const Arrow: string := " -> "

  /** Reads a subject back into the two versions it names. */
  function ParseSubject(s: string): Option<(string, string)>
  {
    if !IsPrefix(SubjectLead, s) then None
    else
      var rest := s[|SubjectLead|..];
      match IndexOf(rest, ' ')
      case None => None
      case Some(p) =>
        if IsPrefix(Arrow, rest[p..]) then Some((rest[..p], rest[p + |Arrow|..])) else None
  }

  /** The subject names both versions recoverably when the old one holds no
      space, which holds for every `vNN.NN` token. */
  lemma SubjectRoundTrip(oldVersion: string, newVersion: string)
    requires ' ' !in oldVersion
    ensures ParseSubject(Subject(oldVersion, newVersion)) == Some((oldVersion, newVersion))
  {
    var s := Subject(oldVersion, newVersion);
    assert s == SubjectLead + (oldVersion + Arrow + newVersion);
    var rest := s[|SubjectLead|..];
    assert rest == oldVersion + (Arrow + newVersion);
    IndexOfAfter(oldVersion, Arrow + newVersion, ' ');
    assert rest[|oldVersion|..] == Arrow + newVersion;
    assert rest[|oldVersion| + |Arrow|..] == newVersion;
  }

  /** `"<display name>" <address>`. */
  function FromHeader(name: string, address: string): string
  {
    "\"" + name + "\" <" + address + ">"
  }

  /** Reads a From header back into display name and address. */
  function ParseFrom(h: string): Option<(string, string)>
  {
    if |h| < 4 || h[0] != '"' || h[|h| - 1] != '>' then None
    else
      match IndexOf(h[1..], '"')
      case None => None
      case Some(p) =>
        if p + 4 <= |h| - 1 && h[p + 1..p + 4] == "\" <" then
          Some((h[1..p + 1], h[p + 4..|h| - 1]))
        else None
  }

  /** Where the pieces of a From header sit. */
  lemma FromHeaderParts(name: string, address: string)
    ensures var h, tail := FromHeader(name, address), "\" <" + address + ">";
      |h| == |name| + |address| + 5 && h[0] == '"' && h[|h| - 1] == '>' &&
      h[1..] == name + tail && h[|name| + 1..|name| + 4] == "\" <" &&
      h[1..|name| + 1] == name && h[|name| + 4..|h| - 1] == address
  {
    var h, tail := FromHeader(name, address), "\" <" + address + ">";
    var body := name + tail;
    assert h == "\"" + body;
    assert h[1..] == body;
    assert h[|name| + 1..|name| + 4] == tail[..3];
    assert h[1..|name| + 1] == body[..|name|];
    assert h[|name| + 4..|h| - 1] == tail[3..|tail| - 1];
  }

  /** The From header carries name and address recoverably when the name
      holds no double quote. */
  lemma FromRoundTrip(name: string, address: string)
    requires '"' !in name
    ensures ParseFrom(FromHeader(name, address)) == Some((name, address))
  {
    FromHeaderParts(name, address);
    IndexOfAfter(name, "\" <" + address + ">", '"');
  }

  /** `", ".join(recipient_addresses)`. */
  function ToHeader(recipients: seq<string>): string
  {
    Join(recipients, ", ")
  }

  /** Splits a To header back into addresses at each ", ". */
  function SplitAddresses(s: string): seq<string>
    decreases |s|
  {
    match IndexOf(s, ',')
    case None => [s]
    case Some(p) => if p + 2 <= |s| then [s[..p]] + SplitAddresses(s[p + 2..]) else [s]
  }

  function ParseTo(h: string): seq<string>
  {
    if h == "" then [] else SplitAddresses(h)
  }

  /** The To header: empty for no recipients, the address itself for one. */
  lemma ToHeaderShapes(recipients: seq<string>)
    ensures recipients == [] ==> ToHeader(recipients) == ""
    ensures |recipients| == 1 ==> ToHeader(recipients) == recipients[0]
  {
  }

  lemma {:induction false} SplitJoin(xs: seq<string>)
    requires |xs| > 0
    requires forall i :: 0 <= i < |xs| ==> ',' !in xs[i]
    ensures SplitAddresses(Join(xs, ", ")) == xs
  {
    if |xs| > 1 {
      var rest := Join(xs[1..], ", ");
      assert Join(xs, ", ") == xs[0] + (", " + rest);
      IndexOfAfter(xs[0], ", " + rest, ',');
      assert (xs[0] + (", " + rest))[..|xs[0]|] == xs[0];
      assert (xs[0] + (", " + rest))[|xs[0]| + 2..] == rest;
      assert forall i :: 0 <= i < |xs| - 1 ==> xs[1..][i] == xs[i + 1];
      SplitJoin(xs[1..]);
    }
  }

  /** The To header names every recipient, in order, and nothing else, as
      long as no address is empty or holds a comma. */
  lemma ToHeaderRoundTrip(recipients: seq<string>)
    requires forall i :: 0 <= i < |recipients| ==> recipients[i] != "" && ',' !in recipients[i]
    ensures ParseTo(ToHeader(recipients)) == recipients
  {
    if recipients != [] {
      SplitJoin(recipients);
      if |recipients| > 1 {
        assert ToHeader(recipients) == recipients[0] + ", " + Join(recipients[1..], ", ");
      }
    }
  }

  /** The headers and the body of a composed mail give back what went in:
      the subject both versions, the From header name and address, the To
      header the recipients, and the body both versions, the table and the
      name, each verbatim at a place fixed by the template. */
  lemma ComposedHeadersReadBack(newVersion: string, oldVersion: string, table: string,
                                recipients: seq<string>, sender: string, name: string)
    ensures ' ' !in oldVersion ==> ParseSubject(Subject(oldVersion, newVersion)) == Some((oldVersion, newVersion))
    ensures '"' !in name ==> ParseFrom(FromHeader(name, sender)) == Some((name, sender))
    ensures (forall i :: 0 <= i < |recipients| ==> recipients[i] != "" && ',' !in recipients[i]) ==>
            ParseTo(ToHeader(recipients)) == recipients
    ensures var k := TableOffset(oldVersion, newVersion);
            k + |table| <= |Body(oldVersion, newVersion, table, name)| &&
            Body(oldVersion, newVersion, table, name)[k..k + |table|] == table
    ensures var body := Body(oldVersion, newVersion, table, name);
            |Opening| + |oldVersion| <= |body| &&
            body[|Opening|..|Opening| + |oldVersion|] == oldVersion
    ensures var body, k := Body(oldVersion, newVersion, table, name), |Opening| + |oldVersion| + |BeforeNew|;
            k + |newVersion| <= |body| && body[k..k + |newVersion|] == newVersion
    ensures var body := Body(oldVersion, newVersion, table, name);
            |Closing| + |name| <= |body| && body[|body| - |Closing| - |name|..|body| - |Closing|] == name
  {
    if ' ' !in oldVersion { SubjectRoundTrip(oldVersion, newVersion); }
    if '"' !in name { FromRoundTrip(name, sender); }
    if forall i :: 0 <= i < |recipients| ==> recipients[i] != "" && ',' !in recipients[i] {
      ToHeaderRoundTrip(recipients);
    }
    BodyEmbedsTable(oldVersion, newVersion, table, name);
    BodyEmbedsOldVersion(oldVersion, newVersion, table, name);
    BodyEmbedsNewVersion(oldVersion, newVersion, table, name);
    BodyEmbedsName(oldVersion, newVersion, table, name);
  }

  /** The message `send_notification` builds and the envelope it is sent
      with: sender address and the recipient list as given. */
  datatype Mail = Mail(
    subject: string,
    from: string,
    to: string,
    body: string,
    subtype: string,
    envelopeFrom: string,
    envelopeTo: seq<string>)

  /** `send_notification`, up to the hand-over to the SMTP server. */
  function Compose(newVersion: string, oldVersion: string, table: string,
                   recipients: seq<string>, sender: string, nameArg: DisplayNameArg): (m: Mail)
    ensures ' ' !in oldVersion ==> ParseSubject(m.subject) == Some((oldVersion, newVersion))
    ensures '"' !in DisplayName(nameArg) ==> ParseFrom(m.from) == Some((DisplayName(nameArg), sender))
    ensures (forall i :: 0 <= i < |recipients| ==> recipients[i] != "" && ',' !in recipients[i]) ==>
            ParseTo(m.to) == recipients
    ensures var k := TableOffset(oldVersion, newVersion);
            k + |table| <= |m.body| && m.body[k..k + |table|] == table
    ensures m.subtype == "html" && m.envelopeFrom == sender && m.envelopeTo == recipients
  {
    var name := DisplayName(nameArg);
    ComposedHeadersReadBack(newVersion, oldVersion, table, recipients, sender, name);
    Mail(Subject(oldVersion, newVersion), FromHeader(name, sender), ToHeader(recipients),
         Body(oldVersion, newVersion, table, name), "html", sender, recipients)
  }

  /** With the parameter left to its default the mail is signed, and sent,
      as "MediCat Torrent Updater"; a `None` passed explicitly shows "None". */
  lemma DisplayNameDefaults(newVersion: string, oldVersion: string, table: string,
                            recipients: seq<string>, sender: string)
    ensures Compose(newVersion, oldVersion, table, recipients, sender, DefaultName).from ==
            FromHeader(DefaultDisplayName, sender)
    ensures Compose(newVersion, oldVersion, table, recipients, sender, Given(PyNone)).from ==
            FromHeader("None", sender)
  {
  }

  /** Setting a header on an `EmailMessage` raises `ValueError` when
      `splitlines` breaks the value into more than one line, that is, when
      some line break in it is followed by more text (`SeveralLines`,
      `HasInnerBreakIff`). */
  predicate HeaderRejected(v: string)
  {
    HasInnerBreak(v)
  }

  /** The three header assignments of `send_notification` all go through. */
  predicate HeadersAccepted(m: Mail)
  {
    !HeaderRejected(m.subject) && !HeaderRejected(m.from) && !HeaderRejected(m.to)
  }

  lemma TemplateTextsWithoutBreaks()
    ensures !HasLineBoundary(SubjectLead) && !HasLineBoundary(Arrow)
    ensures !HasLineBoundary("\"") && !HasLineBoundary("\" <") && !HasLineBoundary(">")
    ensures !HasLineBoundary(", ")
  {
    assert forall i :: 0 <= i < |SubjectLead| ==> SubjectLead[i] in "Medicat Update ";
    assert forall i :: 0 <= i < |Arrow| ==> Arrow[i] in " ->";
  }

  /** With an old version on one line, the subject is refused exactly when
      the new version spans several lines. */
  lemma SubjectRejection(oldVersion: string, newVersion: string)
    requires !HasLineBoundary(oldVersion)
    ensures HeaderRejected(Subject(oldVersion, newVersion)) <==> HeaderRejected(newVersion)
  {
    TemplateTextsWithoutBreaks();
    var p := SubjectLead + oldVersion + Arrow;
    assert Subject(oldVersion, newVersion) == p + newVersion;
    LineBoundaryConcat(SubjectLead, oldVersion);
    LineBoundaryConcat(SubjectLead + oldVersion, Arrow);
    InnerBreakAfterPlainPrefix(p, newVersion);
    HasInnerBreakIff(p + newVersion);
    HasInnerBreakIff(newVersion);
  }

  /** The From header is refused exactly when the display name or the
      address holds a line break anywhere, since `>` always follows. */
  lemma FromRejection(name: string, sender: string)
    ensures HeaderRejected(FromHeader(name, sender)) <==> HasLineBoundary(name) || HasLineBoundary(sender)
  {
    TemplateTextsWithoutBreaks();
    var a := "\"" + name + "\" <" + sender;
    assert FromHeader(name, sender) == a + ">";
    LineBoundaryConcat("\"", name);
    LineBoundaryConcat("\"" + name, "\" <");
    LineBoundaryConcat("\"" + name + "\" <", sender);
    InnerBreakBeforePlainTail(a, ">");
    HasInnerBreakIff(a + ">");
  }

  /** Recipients without line breaks give a To header that is accepted. */
  lemma ToAccepted(recipients: seq<string>)
    requires forall i :: 0 <= i < |recipients| ==> !HasLineBoundary(recipients[i])
    ensures !HeaderRejected(ToHeader(recipients))
  {
    TemplateTextsWithoutBreaks();
    JoinWithoutBreaks(recipients, ", ");
    HasInnerBreakIff(ToHeader(recipients));
  }

  /** When `send_notification` gets past its header assignments: only if the
      new version is one line and the display name and sender address hold
      no break, and then certainly if no recipient holds one either. */
  lemma ComposeAccepted(newVersion: string, oldVersion: string, table: string,
                        recipients: seq<string>, sender: string, nameArg: DisplayNameArg)
    requires !HasLineBoundary(oldVersion)
    ensures var m := Compose(newVersion, oldVersion, table, recipients, sender, nameArg);
      HeadersAccepted(m) ==>
        !HeaderRejected(newVersion) && !HasLineBoundary(DisplayName(nameArg)) && !HasLineBoundary(sender)
    ensures var m := Compose(newVersion, oldVersion, table, recipients, sender, nameArg);
      (!HeaderRejected(newVersion) && !HasLineBoundary(DisplayName(nameArg)) && !HasLineBoundary(sender) &&
       (forall i :: 0 <= i < |recipients| ==> !HasLineBoundary(recipients[i]))) ==> HeadersAccepted(m)
  {
    SubjectRejection(oldVersion, newVersion);
    FromRejection(DisplayName(nameArg), sender);
    if forall i :: 0 <= i < |recipients| ==> !HasLineBoundary(recipients[i]) {
      ToAccepted(recipients);
    }
  }
}
