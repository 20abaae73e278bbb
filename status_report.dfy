/** The two status reports of main.py: the plain-text list of all torrents
    (`get_torrent_status`) and the HTML table of the MediCat torrents
    (`get_medicat_torrent_status_html`). The client's torrent list is an
    input; the table renderer is a function parameter. */
module StatusReport {
  import opened Wrappers
  import opened Text
  import opened SizeFormat
  import opened TagStyling

  /** A torrent as the client reports it, with the fields the reports read.
      `name` is optional because the table code looks it up with a default. */
  datatype Torrent = Torrent(
    name: Option<string>,
    hash: string,
    state: string,
    size: int,
    uploaded: int,
    ratio: real,
    numComplete: int,
    numLeechs: int,
    numIncomplete: int)

  /** One line of the plain-text status: `- <last 6 of hash>: <name> (<state>)`
      and CRLF. `None` when the torrent has no name: reading `torrent.name`
      raises then. */
  function StatusLine(t: Torrent): Option<string>
  {
    match t.name
    case Some(n) => Some("- " + LastN(t.hash, 6) + ": " + n + " (" + t.state + ")\r\n")
    case None => None
  }

  /** Both texts, joined, when both exist. */
  function Then(a: Option<string>, b: Option<string>): Option<string>
  {
    if a.Some? && b.Some? then Some(a.value + b.value) else None
  }

  lemma ThenAssociative(a: Option<string>, b: Option<string>, c: Option<string>)
    ensures Then(Then(a, b), c) == Then(a, Then(b, c))
  {
    if a.Some? && b.Some? && c.Some? {
      assert (a.value + b.value) + c.value == a.value + (b.value + c.value);
    }
  }

  /** The concatenation of the lines, in the client's order; `None` when
      some torrent lacks a name. */
  function StatusText(ts: seq<Torrent>): Option<string>
  {
    if ts == [] then Some("") else Then(StatusLine(ts[0]), StatusText(ts[1..]))
  }

  /** `get_torrent_status`: the loop that appends one line per torrent. */
  method TorrentStatus(ts: seq<Torrent>) returns (status: Option<string>)
    ensures status == StatusText(ts)
  {
    var text := "";
    var k := 0;
    assert ts[k..] == ts;
    if StatusText(ts).Some? {
      assert text + StatusText(ts).value == StatusText(ts).value;
    }
    while k < |ts|
      invariant 0 <= k <= |ts|
      invariant StatusText(ts) == Then(Some(text), StatusText(ts[k..]))
    {
      assert ts[k..][1..] == ts[k + 1..];
      var line := StatusLine(ts[k]);
      if line.None? {
        return None;
      }
      ThenAssociative(Some(text), line, StatusText(ts[k + 1..]));
      text := text + line.value;
      k := k + 1;
    }
    assert ts[k..] == [];
    assert text + "" == text;
    status := Some(text);
  }

  /** The text of a concatenation is the concatenation of the texts: the
      lines follow the client's order. */
  lemma {:induction false} StatusTextAppend(a: seq<Torrent>, b: seq<Torrent>)
    ensures StatusText(a + b) == Then(StatusText(a), StatusText(b))
  {
    if a == [] {
      assert a + b == b;
      if StatusText(b).Some? {
        assert "" + StatusText(b).value == StatusText(b).value;
      }
    } else {
      assert (a + b)[0] == a[0] && (a + b)[1..] == a[1..] + b;
      StatusTextAppend(a[1..], b);
      ThenAssociative(StatusLine(a[0]), StatusText(a[1..]), StatusText(b));
    }
  }

  /** The text exists exactly when every torrent has a name. */
  lemma {:induction false} StatusTextDefined(ts: seq<Torrent>)
    ensures StatusText(ts).Some? <==> forall i :: 0 <= i < |ts| ==> ts[i].name.Some?
  {
    if ts != [] {
      StatusTextDefined(ts[1..]);
      assert forall i :: 1 <= i < |ts| ==> ts[i] == ts[1..][i - 1];
    }
  }

  predicate NoLineBreaks(t: Torrent)
  {
    '\n' !in t.hash && '\n' !in t.state && '\n' !in t.name.GetOr("")
  }

  lemma {:induction false} NoLineBreakCount(s: string)
    ensures '\n' !in s ==> CountChar(s, '\n') == 0
  {
    if s != [] {
      NoLineBreakCount(s[1..]);
      assert '\n' !in s ==> '\n' !in s[1..];
    }
  }

  /** A line ends in the one line feed it holds. */
  lemma StatusLineOneBreak(t: Torrent)
    requires t.name.Some? && NoLineBreaks(t)
    ensures CountChar(StatusLine(t).value, '\n') == 1
  {
    var h := LastN(t.hash, 6);
    assert h == t.hash[|t.hash| - |h|..];
    assert '\n' !in h;
    var body := "- " + h + ": " + t.name.value + " (" + t.state;
    assert '\n' !in body;
    assert StatusLine(t).value == body + ")\r\n";
    NoLineBreakCount(body);
    CountCharAppend(body, ")\r\n", '\n');
  }

  /** One line per torrent: as many line feeds as torrents, as long as no
      hash, name or state holds a line feed itself. */
  lemma {:induction false} StatusTextOneLinePerTorrent(ts: seq<Torrent>)
    requires forall i :: 0 <= i < |ts| ==> NoLineBreaks(ts[i])
    ensures StatusText(ts).Some? ==> CountChar(StatusText(ts).value, '\n') == |ts|
  {
    if ts != [] && StatusText(ts).Some? {
      assert forall i :: 1 <= i < |ts| ==> ts[i] == ts[1..][i - 1];
      StatusTextOneLinePerTorrent(ts[1..]);
      StatusLineOneBreak(ts[0]);
      CountCharAppend(StatusLine(ts[0]).value, StatusText(ts[1..]).value, '\n');
    }
  }

  /** A cell of the status table: text, a formatted size, the ratio as the
      client gives it, or a count. */
  datatype Cell = Text(text: string) | Size(size: Sized) | Ratio(value: real) | Count(count: int)

  const Headers: seq<string> := ["Name", "Size", "State", "Ratio", "Amount Uploaded", "Seeds", "Leechs"]

  const Marker: string := "medicat"

  /** The distribution's torrents: `"medicat" in torrent.get("name", "").lower()`. */
  predicate IsMedicat(t: Torrent)
  {
    Contains(Lower(t.name.GetOr("")), Marker)
  }

  /** The last column: `"<num_leechs> (<num_incomplete> total)"`. */
  function LeechField(t: Torrent): string
  {
    IntToString(t.numLeechs) + " (" + IntToString(t.numIncomplete) + " total)"
  }

  /** One table row, in the header order. */
  function Row(t: Torrent): seq<Cell>
    requires t.name.Some?
  {
    [Text(t.name.value), Size(SizeOf(t.size as real, "B")), Text(t.state), Ratio(t.ratio),
     Size(SizeOf(t.uploaded as real, "B")), Count(t.numComplete), Text(LeechField(t))]
  }

  lemma MedicatHasName(t: Torrent)
    ensures IsMedicat(t) ==> t.name.Some?
  {
    assert Lower("") == "";
  }

  /** The rows of the table, as a specification: one per MediCat torrent in
      the client's order. */
  function MedicatRows(ts: seq<Torrent>): seq<seq<Cell>>
  {
    if ts == [] then [] else RowsOf(ts[0]) + MedicatRows(ts[1..])
  }

  /** The row a torrent contributes: one if it is a MediCat torrent, none otherwise. */
  function RowsOf(t: Torrent): seq<seq<Cell>>
  {
    MedicatHasName(t);
    if IsMedicat(t) then [Row(t)] else []
  }

  /** The loop of `get_medicat_torrent_status_html` that collects the rows. */
  method MedicatTorrentRows(ts: seq<Torrent>) returns (rows: seq<seq<Cell>>)
    ensures rows == MedicatRows(ts)
  {
    rows := [];
    var k := 0;
    while k < |ts|
      invariant 0 <= k <= |ts|
      invariant rows == MedicatRows(ts[..k])
    {
      MedicatRowsSnoc(ts, k);
      var t := ts[k];
      MedicatHasName(t);
      if Contains(Lower(t.name.GetOr("")), Marker) {
        var size := SizeofFmt(t.size as real, "B");
        var uploaded := SizeofFmt(t.uploaded as real, "B");
        var row := [Text(t.name.value), Size(size), Text(t.state), Ratio(t.ratio),
                    Size(uploaded), Count(t.numComplete), Text(LeechField(t))];
        assert row == Row(t);
        rows := rows + [row];
      }
      k := k + 1;
    }
    assert ts[..k] == ts;
  }

  /** The table of a prefix grows by the row of the next torrent, if it has one. */
  lemma MedicatRowsSnoc(ts: seq<Torrent>, k: nat)
    requires k < |ts|
    ensures IsMedicat(ts[k]) ==> ts[k].name.Some? && MedicatRows(ts[..k + 1]) == MedicatRows(ts[..k]) + [Row(ts[k])]
    ensures !IsMedicat(ts[k]) ==> MedicatRows(ts[..k + 1]) == MedicatRows(ts[..k])
  {
    MedicatHasName(ts[k]);
    assert ts[..k + 1] == ts[..k] + [ts[k]];
    MedicatRowsAppend(ts[..k], [ts[k]]);
    assert [ts[k]][1..] == [];
  }

  function CountMedicat(ts: seq<Torrent>): nat
  {
    if ts == [] then 0 else (if IsMedicat(ts[0]) then 1 else 0) + CountMedicat(ts[1..])
  }

  /** One row of seven cells per MediCat torrent. */
  lemma {:induction false} MedicatRowsCount(ts: seq<Torrent>)
    ensures |MedicatRows(ts)| == CountMedicat(ts)
    ensures forall r :: r in MedicatRows(ts) ==> |r| == |Headers|
  {
    if ts != [] {
      MedicatRowsCount(ts[1..]);
    }
  }

  /** Every row is the row of a MediCat torrent of the list. */
  lemma {:induction false} MedicatRowsSound(ts: seq<Torrent>)
    ensures forall r :: r in MedicatRows(ts) ==>
      exists t :: t in ts && IsMedicat(t) && t.name.Some? && r == Row(t)
  {
    if ts != [] {
      MedicatRowsSound(ts[1..]);
      MedicatHasName(ts[0]);
      var rest := MedicatRows(ts[1..]);
      assert forall t :: t in ts[1..] ==> t in ts;
      assert ts[0] in ts;
      forall r | r in MedicatRows(ts)
        ensures exists t :: t in ts && IsMedicat(t) && t.name.Some? && r == Row(t)
      {
        if r !in rest {
          assert r == Row(ts[0]);
        }
      }
    }
  }

  /** Every MediCat torrent of the list has its row. */
  lemma {:induction false} MedicatRowsComplete(ts: seq<Torrent>)
    ensures forall t :: t in ts && IsMedicat(t) ==> t.name.Some? && Row(t) in MedicatRows(ts)
  {
    if ts != [] {
      MedicatRowsComplete(ts[1..]);
      forall t | t in ts && IsMedicat(t) ensures t.name.Some? && Row(t) in MedicatRows(ts) {
        MedicatHasName(t);
        if t != ts[0] {
          assert t in ts[1..];
        }
      }
    }
  }

  /** The rows keep the client's order (the code does not sort them itself):
      the table of a concatenation is the concatenation of the tables. */
  lemma {:induction false} MedicatRowsAppend(a: seq<Torrent>, b: seq<Torrent>)
    ensures MedicatRows(a + b) == MedicatRows(a) + MedicatRows(b)
  {
    if a == [] {
      assert a + b == b;
    } else {
      assert (a + b)[0] == a[0] && (a + b)[1..] == a[1..] + b;
      MedicatRowsAppend(a[1..], b);
      AppendAssociative(RowsOf(a[0]), MedicatRows(a[1..]), MedicatRows(b));
    }
  }

  lemma AppendAssociative<T>(x: seq<T>, y: seq<T>, z: seq<T>)
    ensures x + (y + z) == x + y + z
  {
  }

  /** The seven characters of `n` from `i` on spell "medicat", ignoring
      ASCII case. */
  predicate SpellsMarkerAt(n: string, i: nat)
    requires i + |Marker| <= |n|
  {
    forall k :: 0 <= k < |Marker| ==> LowerChar(n[i + k]) == Marker[k]
  }

  /** The filter ignores case: a name qualifies exactly when some seven of its
      consecutive characters spell "medicat" in either case. */
  lemma IsMedicatIgnoresCase(t: Torrent)
    ensures var n := t.name.GetOr("");
      IsMedicat(t) <==> exists i: nat | i + |Marker| <= |n| :: SpellsMarkerAt(n, i)
  {
    var n := t.name.GetOr("");
    var l := Lower(n);
    forall i: nat | i + |Marker| <= |n|
      ensures OccursAt(l, Marker, i) <==> SpellsMarkerAt(n, i)
    {
      var w := l[i..i + |Marker|];
      assert forall k :: 0 <= k < |Marker| ==> w[k] == LowerChar(n[i + k]);
    }
    if IsMedicat(t) {
      var i :| 0 <= i <= |l| - |Marker| && OccursAt(l, Marker, i);
      assert SpellsMarkerAt(n, i);
    }
  }

  lemma MediCatNameSpellsMarker(n: string)
    requires n == "MediCat USB"
    ensures SpellsMarkerAt(n, 0)
  {
    forall k | 0 <= k < |Marker| ensures LowerChar(n[k]) == Marker[k] {
      assert k == 0 || k == 1 || k == 2 || k == 3 || k == 4 || k == 5 || k == 6;
    }
  }

  lemma NamelessIsNotMedicat(t: Torrent)
    requires t.name.None?
    ensures !IsMedicat(t)
  {
    assert Lower("") == "";
  }

  lemma IsMedicatExamples()
    ensures IsMedicat(Torrent(Some("MediCat USB"), "", "", 0, 0, 0.0, 0, 0, 0))
    ensures !IsMedicat(Torrent(None, "", "", 0, 0, 0.0, 0, 0, 0))
  {
    var t := Torrent(Some("MediCat USB"), "", "", 0, 0, 0.0, 0, 0, 0);
    IsMedicatIgnoresCase(t);
    MediCatNameSpellsMarker(t.name.value);
    NamelessIsNotMedicat(Torrent(None, "", "", 0, 0, 0.0, 0, 0, 0));
  }

  predicate IsNumeral(s: string)
  {
    forall i :: 0 <= i < |s| ==> IsDigit(s[i]) || (i == 0 && s[i] == '-')
  }

  /** Reads the last column back into its two counts. */
  function ParseLeechField(f: string): Option<(int, int)>
  {
    match IndexOf(f, ' ')
    case None => None
    case Some(p) =>
      var a, rest := f[..p], f[p..];
      if |rest| >= 9 && rest[..2] == " (" && rest[|rest| - 7..] == " total)" &&
         IsNumeral(a) && IsNumeral(rest[2..|rest| - 7])
      then Some((ParseInt(a), ParseInt(rest[2..|rest| - 7])))
      else None
  }

  /** Where the two counts sit in the last column. */
  lemma LeechFieldParts(a: string, b: string)
    ensures var f, rest := a + " (" + b + " total)", " (" + b + " total)";
      f == a + rest && f[..|a|] == a && f[|a|..] == rest && |rest| >= 9 &&
      rest[..2] == " (" && rest[|rest| - 7..] == " total)" && rest[2..|rest| - 7] == b
  {
    var rest := " (" + b + " total)";
    assert a + " (" + b + " total)" == a + rest;
    SliceMiddleOf(" (", b, " total)");
  }

  lemma SliceMiddleOf(x: string, m: string, y: string)
    ensures var s := x + m + y;
      s[..|x|] == x && s[|s| - |y|..] == y && s[|x|..|s| - |y|] == m
  {
  }

  /** The last column keeps both counts: they can be read back from it. */
  lemma LeechFieldRoundTrip(t: Torrent)
    ensures ParseLeechField(LeechField(t)) == Some((t.numLeechs, t.numIncomplete))
  {
    var a, b := IntToString(t.numLeechs), IntToString(t.numIncomplete);
    LeechFieldParts(a, b);
    assert ' ' !in a;
    IndexOfAfter(a, " (" + b + " total)", ' ');
    IntToStringRoundTrip(t.numLeechs);
    IntToStringRoundTrip(t.numIncomplete);
  }

  /** What `get_medicat_torrent_status_html` returns, for a given renderer of
      headers and rows (the `tabulate` call). */
  function StatusHtml(ts: seq<Torrent>, render: (seq<string>, seq<seq<Cell>>) -> string): string
  {
    StyleTable(render(Headers, MedicatRows(ts)))
  }

  /** `get_medicat_torrent_status_html`: collect the rows, render them, style
      the markup. */
  method MedicatTorrentStatusHtml(ts: seq<Torrent>, render: (seq<string>, seq<seq<Cell>>) -> string)
    returns (html: string)
    ensures html == StatusHtml(ts, render)
    ensures !Contains(html, TableOpen) && !Contains(html, HeaderOpen) && !Contains(html, DataOpen)
  {
    var rows := MedicatTorrentRows(ts);
    var table := render(Headers, rows);
    html := StyleTable(table);
    StyledTableHasNoBareTags(table);
  }
}
