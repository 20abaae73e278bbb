/** One run of the updater (the `__main__` block of main.py): extract the
    thread's version and magnet link, compare with the versions the client
    already has, add the torrent and send the notification. The thread's
    text nodes, the client's torrent names before and its torrents after the
    addition, the table renderer and the configuration are inputs. */
module Pipeline {
  import opened Wrappers
  import opened Text
  import opened VersionScan
  import opened VersionOrder
  import opened TagStyling
  import opened StatusReport
  import opened Notification

  /** The configuration keys the run reads for the mail; the display name is
      read with `config.get`, so a missing key gives `None`. */
  datatype Config = Config(
    recipientAddresses: seq<string>,
    senderAddress: string,
    senderDisplayName: Option<string>)

  /** How a run ends. */
  datatype Outcome =
    | ExtractionCrash                    // `.string` read on a `find` that found nothing
    | ExtractionFailed                   // exit status 1
    | AlreadyPresent(skipMessage: string)    // exit status 0, nothing added
    | AddedThenCrash(magnet: string, progress: string)  // added, then `[-1]` on an empty list
    | MailRejected(magnet: string, progress: string)    // added, then `ValueError` at a header
    | Notified(magnet: string, progress: string, mail: Mail)

  function SkipMessage(version: string, versions: seq<string>): string
  {
    "Skip: Version " + version + " is already in torrent (" + Join(versions, ", ") + ")!"
  }

  function ProgressMessage(version: string, versions: seq<string>): string
  {
    "-- Version " + version + " is not yet in qBittorrent (" + Join(versions, ", ") + ")!!"
  }

  /** The display-name argument of the `send_notification` call: always
      passed, `None` when the key is missing. */
  function DisplayNameOf(config: Config): DisplayNameArg
  {
    match config.senderDisplayName
    case Some(s) => Given(PyStr(s))
    case None => Given(PyNone)
  }

  /** The call of `send_notification`: it raises at a header assignment or
      sends the mail. */
  function Deliver(magnet: string, progress: string, mail: Mail): Outcome
  {
    if HeadersAccepted(mail) then Notified(magnet, progress, mail) else MailRejected(magnet, progress)
  }

  /** The run past its extraction check, given the thread's version and
      magnet link, the client's sorted versions and the status table. */
  function Decide(version: string, magnet: string, versions: seq<string>, table: string,
                  config: Config): Outcome
  {
    if version in versions then AlreadyPresent(SkipMessage(version, versions))
    else
      var progress := ProgressMessage(version, versions);
      if versions == [] then AddedThenCrash(magnet, progress)
      else
        Deliver(magnet, progress,
                Compose(version, versions[|versions| - 1], table,
                        config.recipientAddresses, config.senderAddress, DisplayNameOf(config)))
  }

  /** The run. */
  function Run(nodes: seq<string>, names: seq<string>, after: seq<Torrent>,
               render: (seq<string>, seq<seq<Cell>>) -> string, config: Config): Outcome
  {
    match (ThreadVersion(nodes), MagnetLink(nodes))
    case (None, _) => ExtractionCrash
    case (_, None) => ExtractionCrash
    case (Some(version), Some(magnet)) =>
      if version == "" || magnet == "" then ExtractionFailed
      else Decide(version, magnet, Sort(VersionsOf(names)), StatusHtml(after, render), config)
  }

  /** With both nodes found, the run goes on past its extraction check. */
  lemma RunDecides(nodes: seq<string>, names: seq<string>, after: seq<Torrent>,
                   render: (seq<string>, seq<seq<Cell>>) -> string, config: Config)
    requires ThreadVersion(nodes).Some? && MagnetLink(nodes).Some?
    ensures Run(nodes, names, after, render, config) ==
      Decide(ThreadVersion(nodes).value, MagnetLink(nodes).value, Sort(VersionsOf(names)),
             StatusHtml(after, render), config)
  {
    ThreadVersionIsFirstWholeNode(nodes);
    MagnetLinkIsFirstWholeNode(nodes);
  }

  /** The run stops before its check at line 105 whenever a node is missing;
      the check itself never fires, since found nodes are never empty. */
  lemma ExtractionOutcomes(nodes: seq<string>, names: seq<string>, after: seq<Torrent>,
                           render: (seq<string>, seq<seq<Cell>>) -> string, config: Config)
    ensures Run(nodes, names, after, render, config).ExtractionCrash? <==>
            ThreadVersion(nodes).None? || MagnetLink(nodes).None?
    ensures !Run(nodes, names, after, render, config).ExtractionFailed?
  {
    if ThreadVersion(nodes).Some? && MagnetLink(nodes).Some? {
      RunDecides(nodes, names, after, render, config);
      DecideOutcomes(ThreadVersion(nodes).value, MagnetLink(nodes).value,
                     Sort(VersionsOf(names)), StatusHtml(after, render), config);
    }
  }

  /** The outcomes past the extraction check, over any version list. */
  lemma DecideOutcomes(version: string, magnet: string, versions: seq<string>,
                       table: string, config: Config)
    ensures var out := Decide(version, magnet, versions, table, config);
      && !out.ExtractionCrash? && !out.ExtractionFailed?
      && (out.AlreadyPresent? <==> version in versions)
      && (out.AddedThenCrash? <==> version !in versions && versions == [])
      && (out.Notified? || out.MailRejected? <==> version !in versions && versions != [])
      && (!out.AlreadyPresent? ==> out.magnet == magnet && out.progress == ProgressMessage(version, versions))
  {
  }

  /** With both nodes found, the run skips exactly when the thread's version
      text equals one of the client's version tokens; otherwise it reports
      the missing version and adds the magnet link, and fails afterwards
      exactly when the client has no version at all. */
  lemma SkipIffAlreadyPresent(nodes: seq<string>, names: seq<string>, after: seq<Torrent>,
                              render: (seq<string>, seq<seq<Cell>>) -> string, config: Config)
    requires ThreadVersion(nodes).Some? && MagnetLink(nodes).Some?
    ensures var out := Run(nodes, names, after, render, config);
      && (out.AlreadyPresent? <==> ThreadVersion(nodes).value in VersionsOf(names))
      && (out.AddedThenCrash? <==> ThreadVersion(nodes).value !in VersionsOf(names) && VersionsOf(names) == [])
      && (out.Notified? || out.MailRejected? <==>
          ThreadVersion(nodes).value !in VersionsOf(names) && VersionsOf(names) != [])
      && (out.AddedThenCrash? || out.MailRejected? || out.Notified? ==>
          out.magnet == MagnetLink(nodes).value &&
          out.progress == ProgressMessage(ThreadVersion(nodes).value, Sort(VersionsOf(names))))
  {
    RunDecides(nodes, names, after, render, config);
    DecideOutcomes(ThreadVersion(nodes).value, MagnetLink(nodes).value,
                   Sort(VersionsOf(names)), StatusHtml(after, render), config);
    SortKeepsMembers(VersionsOf(names));
    assert Sort(VersionsOf(names)) == [] <==> VersionsOf(names) == [];
  }

  /** A thread node with text after the token, such as `v21.08 Final`, is
      never one of the client's six-character tokens: the run then always
      adds the torrent again. */
  lemma TrailingTextAlwaysAdds(nodes: seq<string>, names: seq<string>, after: seq<Torrent>,
                               render: (seq<string>, seq<seq<Cell>>) -> string, config: Config)
    requires ThreadVersion(nodes).Some? && MagnetLink(nodes).Some?
    requires |ThreadVersion(nodes).value| != TokenLength
    ensures !Run(nodes, names, after, render, config).AlreadyPresent?
  {
    SkipIffAlreadyPresent(nodes, names, after, render, config);
    VersionsOfAreTokens(names);
  }

  /** The version the mail names as the one replaced: the last of the
      sorted client versions (`torrent_medicat_versions[-1]`). */
  function PreviousVersion(names: seq<string>): string
    requires VersionsOf(names) != []
  {
    var versions := Sort(VersionsOf(names));
    versions[|versions| - 1]
  }

  /** The replaced version is one the client has, and the newest of them by
      release number. */
  lemma PreviousVersionIsNewest(names: seq<string>)
    requires VersionsOf(names) != []
    ensures PreviousVersion(names) in VersionsOf(names)
    ensures IsToken(PreviousVersion(names))
    ensures forall i :: 0 <= i < |VersionsOf(names)| ==>
      IsToken(VersionsOf(names)[i]) && !VersionBefore(PreviousVersion(names), VersionsOf(names)[i])
  {
    VersionsOfAreTokens(names);
    SortedLastIsNewest(VersionsOf(names));
  }

  /** A version token lies on one line. */
  lemma TokenHasNoLineBoundary(t: string)
    requires IsToken(t)
    ensures !HasLineBoundary(t)
  {
    assert forall i :: 0 <= i < |t| ==> t[i] == 'v' || t[i] == '.' || IsDigit(t[i]);
  }

  /** Past the addition with a non-empty inventory, the run ends in the
      mail step for the thread's version and the replaced version. */
  lemma RunDelivers(nodes: seq<string>, names: seq<string>, after: seq<Torrent>,
                    render: (seq<string>, seq<seq<Cell>>) -> string, config: Config)
    requires ThreadVersion(nodes).Some? && MagnetLink(nodes).Some?
    requires ThreadVersion(nodes).value !in VersionsOf(names) && VersionsOf(names) != []
    ensures Run(nodes, names, after, render, config) ==
      Deliver(MagnetLink(nodes).value, ProgressMessage(ThreadVersion(nodes).value, Sort(VersionsOf(names))),
              Compose(ThreadVersion(nodes).value, PreviousVersion(names), StatusHtml(after, render),
                      config.recipientAddresses, config.senderAddress, DisplayNameOf(config)))
  {
    RunDecides(nodes, names, after, render, config);
    SkipIffAlreadyPresent(nodes, names, after, render, config);
    var versions := Sort(VersionsOf(names));
    assert versions != [] && |versions| == |VersionsOf(names)|;
  }

  /** No configured text the mail headers take holds a line break. */
  predicate SingleLineConfig(config: Config)
  {
    && !HasLineBoundary(DisplayName(DisplayNameOf(config)))
    && !HasLineBoundary(config.senderAddress)
    && forall i :: 0 <= i < |config.recipientAddresses| ==> !HasLineBoundary(config.recipientAddresses[i])
  }

  /** Once the torrent is added against a non-empty inventory, the mail is
      refused when the thread's version spans several lines or the display
      name or sender address holds a break, and sent when none of that
      holds and no recipient holds a break either. */
  lemma MailRejectedWhen(nodes: seq<string>, names: seq<string>, after: seq<Torrent>,
                         render: (seq<string>, seq<seq<Cell>>) -> string, config: Config)
    requires ThreadVersion(nodes).Some? && MagnetLink(nodes).Some?
    requires ThreadVersion(nodes).value !in VersionsOf(names) && VersionsOf(names) != []
    ensures var out := Run(nodes, names, after, render, config);
      (HeaderRejected(ThreadVersion(nodes).value) || HasLineBoundary(DisplayName(DisplayNameOf(config))) ||
       HasLineBoundary(config.senderAddress)) ==> out.MailRejected?
    ensures var out := Run(nodes, names, after, render, config);
      !HeaderRejected(ThreadVersion(nodes).value) && SingleLineConfig(config) ==> out.Notified?
  {
    var version := ThreadVersion(nodes).value;
    RunDelivers(nodes, names, after, render, config);
    PreviousVersionIsNewest(names);
    TokenHasNoLineBoundary(PreviousVersion(names));
    ComposeAccepted(version, PreviousVersion(names), StatusHtml(after, render),
                    config.recipientAddresses, config.senderAddress, DisplayNameOf(config));
  }

  /** A thread version over several lines that the client lacks: the run
      reports it, adds the torrent and then fails on the subject header. */
  lemma MultiLineVersionRejected(nodes: seq<string>, names: seq<string>, after: seq<Torrent>,
                                 render: (seq<string>, seq<seq<Cell>>) -> string, config: Config)
    requires ThreadVersion(nodes).Some? && MagnetLink(nodes).Some?
    requires ThreadVersion(nodes).value !in VersionsOf(names) && VersionsOf(names) != []
    requires HeaderRejected(ThreadVersion(nodes).value)
    ensures Run(nodes, names, after, render, config) ==
      MailRejected(MagnetLink(nodes).value, ProgressMessage(ThreadVersion(nodes).value, Sort(VersionsOf(names))))
  {
    RunDelivers(nodes, names, after, render, config);
    MailRejectedWhen(nodes, names, after, render, config);
  }

  /** The mail announces the update from the newest version the client had
      to the thread's version, carries the styled table of the client's
      MediCat torrents verbatim, and goes to the configured recipients from
      the configured sender. */
  lemma NotificationContents(nodes: seq<string>, names: seq<string>, after: seq<Torrent>,
                             render: (seq<string>, seq<seq<Cell>>) -> string, config: Config)
    requires Run(nodes, names, after, render, config).Notified?
    ensures ThreadVersion(nodes).Some? && VersionsOf(names) != []
    ensures var mail := Run(nodes, names, after, render, config).mail;
      var previous := PreviousVersion(names);
      var table := StatusHtml(after, render);
      var k := TableOffset(previous, ThreadVersion(nodes).value);
      && ParseSubject(mail.subject) == Some((previous, ThreadVersion(nodes).value))
      && k + |table| <= |mail.body|
      && mail.body[k..k + |table|] == table
      && !Contains(table, TableOpen) && !Contains(table, HeaderOpen) && !Contains(table, DataOpen)
      && mail.envelopeTo == config.recipientAddresses
      && mail.envelopeFrom == config.senderAddress
  {
    var version := ThreadVersion(nodes).value;
    var previous := PreviousVersion(names);
    var table := StatusHtml(after, render);
    NotifiedMail(nodes, names, after, render, config);
    PreviousVersionIsNewest(names);
    TokenHasNoSpace(previous);
    StyledTableHasNoBareTags(render(Headers, MedicatRows(after)));
  }

  /** A notifying run sends the mail composed from the thread's version and
      the replaced version. */
  lemma NotifiedMail(nodes: seq<string>, names: seq<string>, after: seq<Torrent>,
                     render: (seq<string>, seq<seq<Cell>>) -> string, config: Config)
    requires Run(nodes, names, after, render, config).Notified?
    ensures ThreadVersion(nodes).Some? && VersionsOf(names) != []
    ensures Run(nodes, names, after, render, config).mail ==
      Compose(ThreadVersion(nodes).value, PreviousVersion(names), StatusHtml(after, render),
              config.recipientAddresses, config.senderAddress, DisplayNameOf(config))
  {
    ExtractionOutcomes(nodes, names, after, render, config);
    SkipIffAlreadyPresent(nodes, names, after, render, config);
    RunDelivers(nodes, names, after, render, config);
  }

  /** `config.get` always passes a value, so the parameter's default never
      applies: a configuration without a display name signs and sends the
      mail as "None". */
  lemma DisplayNameNeverDefault(nodes: seq<string>, names: seq<string>, after: seq<Torrent>,
                                render: (seq<string>, seq<seq<Cell>>) -> string, config: Config)
    requires Run(nodes, names, after, render, config).Notified?
    ensures DisplayNameOf(config) != DefaultName
    ensures config.senderDisplayName.None? ==>
      Run(nodes, names, after, render, config).mail.from == FromHeader("None", config.senderAddress)
    ensures config.senderDisplayName.Some? ==>
      Run(nodes, names, after, render, config).mail.from ==
      FromHeader(config.senderDisplayName.value, config.senderAddress)
  {
    NotifiedMail(nodes, names, after, render, config);
  }

  lemma ExampleThread()
    ensures ThreadVersion(["Download", "v21.08", "magnet:?x"]) == Some("v21.08")
    ensures MagnetLink(["Download", "v21.08", "magnet:?x"]) == Some("magnet:?x")
  {
    assert !StartsWithVersion("Download");
    assert StartsWithVersion("v21.08");
    assert !StartsWithMagnet("Download") && !StartsWithMagnet("v21.08");
    assert StartsWithMagnet("magnet:?x");
  }

  lemma ExampleThreadOfKnownVersion()
    ensures ThreadVersion(["v20.12", "magnet:?x"]) == Some("v20.12")
    ensures MagnetLink(["v20.12", "magnet:?x"]) == Some("magnet:?x")
  {
    assert StartsWithVersion("v20.12") && !StartsWithMagnet("v20.12");
    assert StartsWithMagnet("magnet:?x");
  }

  /** The thread version is the whole node, line break and all. */
  lemma ExampleMultiLineThread()
    ensures ThreadVersion(["v21.08\nDownload", "magnet:?x"]) == Some("v21.08\nDownload")
    ensures MagnetLink(["v21.08\nDownload", "magnet:?x"]) == Some("magnet:?x")
  {
    assert StartsWithVersion("v21.08\nDownload") && !StartsWithMagnet("v21.08\nDownload");
    assert StartsWithMagnet("magnet:?x");
  }

  /** Such a version is refused as a header, and the client has no such version. */
  lemma ExampleMultiLineVersion(v: string)
    requires v == "v21.08\nDownload"
    ensures HeaderRejected(v)
    ensures v != "v20.12" && v != "v20.01"
  {
    assert |v| == 15;
    assert InnerBreakAt(v, 6);
    HasInnerBreakIff(v);
  }

  lemma ExampleInventoryNames(names: seq<string>)
    requires names == ["M v20.12", "M v20.01"]
    ensures VersionsOf(names) == ["v20.12", "v20.01"]
  {
    var a, b := names[0], names[1];
    FoundAt(a, 2);
    FoundAt(b, 2);
    assert a[2..8] == "v20.12";
    assert b[2..8] == "v20.01";
    assert names == [a] + [b];
    VersionsOfCons(a, [b]);
    VersionsOfCons(b, []);
    assert [b] == [b] + [];
  }

  lemma ExampleInventoryOrder(vs: seq<string>)
    requires vs == ["v20.12", "v20.01"]
    ensures Sort(vs) == ["v20.01", "v20.12"]
  {
    var a, b := vs[0], vs[1];
    assert Less(b, a) by {
      LessStep(b, a);
      LessStep(b[1..], a[1..]);
      LessStep(b[2..], a[2..]);
      LessStep(b[3..], a[3..]);
      LessStep(b[4..], a[4..]);
    }
    assert vs[1..] == [b];
    assert Sort([b]) == [b];
  }

  lemma ExampleInventory()
    ensures VersionsOf(["M v20.12", "M v20.01"]) == ["v20.12", "v20.01"]
    ensures Sort(VersionsOf(["M v20.12", "M v20.01"])) == ["v20.01", "v20.12"]
  {
    ExampleInventoryNames(["M v20.12", "M v20.01"]);
    ExampleInventoryOrder(["v20.12", "v20.01"]);
  }

  lemma ExampleNewThread(nodes: seq<string>)
    requires nodes == ["Download", "v21.08", "magnet:?x"]
    ensures ThreadVersion(nodes) == Some("v21.08") && MagnetLink(nodes) == Some("magnet:?x")
  {
    ExampleThread();
  }

  lemma ExampleInventoryLacksNewVersion(names: seq<string>)
    requires names == ["M v20.12", "M v20.01"]
    ensures "v21.08" !in VersionsOf(names) && VersionsOf(names) != []
    ensures PreviousVersion(names) == "v20.12"
  {
    ExampleInventory();
  }

  /** A newer thread version is added, after the run reports that v21.08
      is missing from the client's v20.01 and v20.12. */
  lemma RunAddsNewerVersion(nodes: seq<string>, names: seq<string>, after: seq<Torrent>,
                            render: (seq<string>, seq<seq<Cell>>) -> string, config: Config)
    requires nodes == ["Download", "v21.08", "magnet:?x"] && names == ["M v20.12", "M v20.01"]
    ensures var out := Run(nodes, names, after, render, config);
      && (out.Notified? || out.MailRejected?)
      && out.magnet == "magnet:?x"
      && out.progress == ProgressMessage("v21.08", ["v20.01", "v20.12"])
  {
    ExampleNewThread(nodes);
    ExampleInventoryLacksNewVersion(names);
    ExampleInventory();
    SkipIffAlreadyPresent(nodes, names, after, render, config);
  }

  /** With a single-line configuration the same run announces the update
      from v20.12 to v21.08. */
  lemma RunAnnouncesNewerVersion(nodes: seq<string>, names: seq<string>, after: seq<Torrent>,
                                 render: (seq<string>, seq<seq<Cell>>) -> string, config: Config)
    requires nodes == ["Download", "v21.08", "magnet:?x"] && names == ["M v20.12", "M v20.01"]
    ensures var out := Run(nodes, names, after, render, config);
      SingleLineConfig(config) ==>
        && out.Notified?
        && out.mail == Compose("v21.08", "v20.12", StatusHtml(after, render),
                               config.recipientAddresses, config.senderAddress, DisplayNameOf(config))
        && out.mail.subject == Subject("v20.12", "v21.08")
  {
    if SingleLineConfig(config) {
      ExampleNewThread(nodes);
      ExampleInventoryLacksNewVersion(names);
      TokenHasNoLineBoundary("v21.08");
      HasInnerBreakIff("v21.08");
      MailRejectedWhen(nodes, names, after, render, config);
      NotifiedMail(nodes, names, after, render, config);
    }
  }

  /** A version the client has is skipped; with no version in the client the
      torrent is added and the run then fails on the empty list. */
  lemma RunSkipsOrFails(after: seq<Torrent>, render: (seq<string>, seq<seq<Cell>>) -> string, config: Config)
    ensures Run(["v20.12", "magnet:?x"], ["M v20.12", "M v20.01"], after, render, config).AlreadyPresent?
    ensures Run(["v20.12", "magnet:?x"], [], after, render, config) ==
      AddedThenCrash("magnet:?x", ProgressMessage("v20.12", []))
  {
    var nodes := ["v20.12", "magnet:?x"];
    ExampleThreadOfKnownVersion();
    ExampleInventory();
    assert "v20.12" in VersionsOf(["M v20.12", "M v20.01"]);
    SkipIffAlreadyPresent(nodes, ["M v20.12", "M v20.01"], after, render, config);
    SkipIffAlreadyPresent(nodes, [], after, render, config);
    ExtractionOutcomes(nodes, [], after, render, config);
  }
}
