/** Finding release tokens of the form `vNN.NN`: in the text nodes of the
    forum thread (anchored at the start of a node) and in torrent names
    (anywhere in the name). Models `get_thread_medicat_version`,
    `get_magnet_link` and `get_torrent_medicat_versions` of main.py. */
module VersionScan {
  import opened Wrappers
  import opened Text

  /** Length of a version token `vNN.NN`. */
  const TokenLength: nat := 6

  /** The regex `v\d\d\.\d\d` matches `s` at index `i`. */
  predicate IsVersionAt(s: string, i: int)
  {
    0 <= i && i + TokenLength <= |s| &&
    s[i] == 'v' && IsDigit(s[i + 1]) && IsDigit(s[i + 2]) &&
    s[i + 3] == '.' && IsDigit(s[i + 4]) && IsDigit(s[i + 5])
  }

  /** A version token: exactly one match of the pattern and nothing else. */
  predicate IsToken(t: string)
  {
    |t| == TokenLength && IsVersionAt(t, 0)
  }

  /** The regex matches somewhere in `s` (what `re.search` looks for). */
  predicate HasVersion(s: string)
  {
    exists i | 0 <= i <= |s| :: IsVersionAt(s, i)
  }

  /** Index of the leftmost match at or after `from`, the scan `re.search` performs. */
  function FirstVersionFrom(s: string, from: nat): (r: Option<nat>)
    requires from <= |s|
    decreases |s| - from
    ensures r.Some? ==> from <= r.value && IsVersionAt(s, r.value)
    ensures r.Some? ==> forall j :: from <= j < r.value ==> !IsVersionAt(s, j)
    ensures r.None? ==> forall j :: from <= j <= |s| ==> !IsVersionAt(s, j)
  {
    if IsVersionAt(s, from) then Some(from)
    else if from == |s| then None
    else FirstVersionFrom(s, from + 1)
  }

  /** `re.search(r"v\d\d\.\d\d", s)[0]`: the leftmost six-character match,
      or `None` when the pattern does not occur. */
  function SearchVersion(s: string): (r: Option<string>)
    ensures r.Some? <==> HasVersion(s)
    ensures r.Some? ==> IsToken(r.value)
    ensures r.Some? ==> exists i :: IsVersionAt(s, i) && r.value == s[i..i + TokenLength] &&
                           forall j :: 0 <= j < i ==> !IsVersionAt(s, j)
  {
    match FirstVersionFrom(s, 0)
    case Some(i) => Some(s[i..i + TokenLength])
    case None => None
  }

  /** The regex `^v\d\d\.\d\d`: a match at the very start of the node. */
  predicate StartsWithVersion(node: string)
  {
    IsVersionAt(node, 0)
  }

  /** The regex `^magnet:\?`. */
  predicate StartsWithMagnet(node: string)
  {
    IsPrefix("magnet:?", node)
  }

  /** BeautifulSoup's `find(string=pattern)` over the document's text nodes in
      document order: the first node the pattern accepts, whole. `None` is the
      case in which `find` returns `None`. */
  function FirstNode(nodes: seq<string>, accepts: string -> bool): (r: Option<string>)
    ensures r.None? <==> forall i :: 0 <= i < |nodes| ==> !accepts(nodes[i])
    ensures r.Some? ==> exists i :: 0 <= i < |nodes| && nodes[i] == r.value && accepts(r.value) &&
                           forall j :: 0 <= j < i ==> !accepts(nodes[j])
  {
    if nodes == [] then None
    else if accepts(nodes[0]) then Some(nodes[0])
    else
      var r := FirstNode(nodes[1..], accepts);
      assert r.Some? ==> exists i :: 1 <= i < |nodes| && nodes[i] == r.value && accepts(r.value) &&
                           forall j :: 0 <= j < i ==> !accepts(nodes[j]) by {
        if r.Some? {
          var i :| 0 <= i < |nodes[1..]| && nodes[1..][i] == r.value && accepts(r.value) &&
                   forall j :: 0 <= j < i ==> !accepts(nodes[1..][j]);
          assert nodes[i + 1] == r.value;
          forall j | 0 <= j < i + 1 ensures !accepts(nodes[j]) {
            if j > 0 { assert nodes[j] == nodes[1..][j - 1]; }
          }
        }
      }
      r
  }

  /** `get_thread_medicat_version`: the first text node that starts with a version. */
  function ThreadVersion(nodes: seq<string>): Option<string>
  {
    FirstNode(nodes, StartsWithVersion)
  }

  /** `get_magnet_link`: the first text node that starts with `magnet:?`. */
  function MagnetLink(nodes: seq<string>): Option<string>
  {
    FirstNode(nodes, StartsWithMagnet)
  }

  /** The thread version is the entire first node that starts with a version
      token, not only the token; it is absent only when no node starts so. */
  lemma ThreadVersionIsFirstWholeNode(nodes: seq<string>)
    ensures ThreadVersion(nodes).None? <==> forall i :: 0 <= i < |nodes| ==> !StartsWithVersion(nodes[i])
    ensures ThreadVersion(nodes).Some? ==>
      exists i :: 0 <= i < |nodes| && nodes[i] == ThreadVersion(nodes).value &&
        (forall j :: 0 <= j < i ==> !StartsWithVersion(nodes[j]))
    ensures ThreadVersion(nodes).Some? ==>
      var v := ThreadVersion(nodes).value;
      |v| >= TokenLength && IsToken(v[..TokenLength])
  {
  }

  /** Likewise the magnet link is the entire first node starting with `magnet:?`. */
  lemma MagnetLinkIsFirstWholeNode(nodes: seq<string>)
    ensures MagnetLink(nodes).None? <==> forall i :: 0 <= i < |nodes| ==> !StartsWithMagnet(nodes[i])
    ensures MagnetLink(nodes).Some? ==>
      exists i :: 0 <= i < |nodes| && nodes[i] == MagnetLink(nodes).value &&
        (forall j :: 0 <= j < i ==> !StartsWithMagnet(nodes[j]))
    ensures MagnetLink(nodes).Some? ==> IsPrefix("magnet:?", MagnetLink(nodes).value)
  {
  }

  /** The anchor matters: a version later in a node does not make the node match,
      and a node with text after the token is returned with that text. */
  lemma ThreadVersionAnchored()
    ensures ThreadVersion(["Hello v21.08"]) == None
    ensures ThreadVersion(["Hello v21.08", "v21.08 Final", "v22.01"]) == Some("v21.08 Final")
  {
    assert !StartsWithVersion("Hello v21.08");
    assert StartsWithVersion("v21.08 Final");
  }

  /** What one name contributes to the scan: its token, or nothing. */
  function Found(name: string): (r: seq<string>)
    ensures |r| <= 1
    ensures r == [] <==> !HasVersion(name)
    ensures r != [] ==> SearchVersion(name) == Some(r[0]) && IsToken(r[0])
  {
    match SearchVersion(name)
    case Some(t) => [t]
    case None => []
  }

  /** The scan of all torrent names, as a specification: one token per name
      that contains the pattern, in the names' order. */
  function VersionsOf(names: seq<string>): seq<string>
  {
    if names == [] then [] else Found(names[0]) + VersionsOf(names[1..])
  }

  /** The scan distributes over concatenation of the name list, so the result
      keeps the names' order and keeps every duplicate. */
  lemma {:induction false} VersionsOfAppend(a: seq<string>, b: seq<string>)
    ensures VersionsOf(a + b) == VersionsOf(a) + VersionsOf(b)
  {
    if a == [] {
      assert a + b == b;
    } else {
      assert (a + b)[0] == a[0];
      assert (a + b)[1..] == a[1..] + b;
      VersionsOfAppend(a[1..], b);
      assert VersionsOf(a + b) == Found(a[0]) + VersionsOf(a[1..] + b);
    }
  }

  /** The scan of one more name. */
  lemma VersionsOfSnoc(names: seq<string>, k: nat)
    requires k < |names|
    ensures VersionsOf(names[..k + 1]) == VersionsOf(names[..k]) + Found(names[k])
  {
    assert names[..k + 1] == names[..k] + [names[k]];
    VersionsOfAppend(names[..k], [names[k]]);
    assert [names[k]][1..] == [];
  }

  /** `get_torrent_medicat_versions`: the loop that appends each name's token. */
  method TorrentVersions(names: seq<string>) returns (versions: seq<string>)
    ensures versions == VersionsOf(names)
  {
    versions := [];
    var k := 0;
    while k < |names|
      invariant 0 <= k <= |names|
      invariant versions == VersionsOf(names[..k])
    {
      VersionsOfSnoc(names, k);
      var m := SearchVersion(names[k]);
      if m.Some? {
        versions := versions + [m.value];
      }
      k := k + 1;
    }
    assert names[..k] == names;
  }

  /** Number of names that contain the pattern anywhere. */
  function CountWithVersion(names: seq<string>): nat
  {
    if names == [] then 0 else (if HasVersion(names[0]) then 1 else 0) + CountWithVersion(names[1..])
  }

  /** Exactly one token per name that contains the pattern, duplicates kept. */
  lemma {:induction false} VersionsOfCount(names: seq<string>)
    ensures |VersionsOf(names)| == CountWithVersion(names)
  {
    if names != [] {
      VersionsOfCount(names[1..]);
    }
  }

  /** A token is collected exactly when it is the leftmost match of some name. */
  lemma {:induction false} VersionsOfMembership(names: seq<string>, t: string)
    ensures t in VersionsOf(names) <==> exists n :: n in names && SearchVersion(n) == Some(t)
  {
    if names != [] {
      VersionsOfMembership(names[1..], t);
      var f, rest := Found(names[0]), VersionsOf(names[1..]);
      assert VersionsOf(names) == f + rest;
      assert names == [names[0]] + names[1..];
      if t in f {
        assert SearchVersion(names[0]) == Some(t);
      } else if t in rest {
        var n :| n in names[1..] && SearchVersion(n) == Some(t);
        assert n in names;
      }
    }
  }

  /** A token holds no space. */
  lemma TokenHasNoSpace(t: string)
    requires IsToken(t)
    ensures ' ' !in t
  {
    assert forall i :: 0 <= i < |t| ==> t[i] == 'v' || t[i] == '.' || IsDigit(t[i]);
  }

  /** Every collected version is a well-formed token. */
  lemma {:induction false} VersionsOfAreTokens(names: seq<string>)
    ensures forall i :: 0 <= i < |VersionsOf(names)| ==> IsToken(VersionsOf(names)[i])
  {
    if names != [] {
      VersionsOfAreTokens(names[1..]);
      var f, rest := Found(names[0]), VersionsOf(names[1..]);
      assert VersionsOf(names) == f + rest;
      assert forall i :: |f| <= i < |f + rest| ==> (f + rest)[i] == rest[i - |f|];
    }
  }

  /** The leftmost match determines the search result. */
  lemma SearchVersionAt(s: string, i: nat)
    requires IsVersionAt(s, i)
    requires forall j :: 0 <= j < i ==> !IsVersionAt(s, j)
    ensures SearchVersion(s) == Some(s[i..i + TokenLength])
  {
    var r := SearchVersion(s);
    assert HasVersion(s);
    var k :| IsVersionAt(s, k) && r.value == s[k..k + TokenLength] &&
             forall j :: 0 <= j < k ==> !IsVersionAt(s, j);
    assert k == i;
  }

  lemma FoundAt(s: string, i: nat)
    requires IsVersionAt(s, i)
    requires forall j :: 0 <= j < i ==> !IsVersionAt(s, j)
    ensures Found(s) == [s[i..i + TokenLength]]
  {
    SearchVersionAt(s, i);
  }

  lemma ExampleNameWithPrefix()
    ensures Found("USB v21.08") == ["v21.08"]
  {
    var a := "USB v21.08";
    assert a[0] != 'v' && a[1] != 'v' && a[2] != 'v' && a[3] != 'v';
    FoundAt(a, 4);
    assert a[4..10] == "v21.08";
  }

  lemma ExampleNameWithout()
    ensures Found("Ubuntu") == []
  {
    var u := "Ubuntu";
    assert forall j :: 0 <= j <= |u| ==> !IsVersionAt(u, j);
  }

  lemma ExampleNamesWithSuffix()
    ensures Found("v21.08 mirror") == ["v21.08"]
    ensures Found("v20.12") == ["v20.12"]
  {
    var b := "v21.08 mirror";
    FoundAt(b, 0);
    assert b[0..6] == "v21.08";
    FoundAt("v20.12", 0);
    assert "v20.12"[0..6] == "v20.12";
  }

  /** A concrete inventory: duplicates are both kept, a name without a token
      contributes nothing, and the token can sit anywhere in the name. */
  lemma VersionsOfCons(x: string, rest: seq<string>)
    ensures VersionsOf([x] + rest) == Found(x) + VersionsOf(rest)
  {
    assert ([x] + rest)[1..] == rest;
  }

  lemma VersionsOfExample(names: seq<string>)
    requires names == ["USB v21.08", "Ubuntu", "v21.08 mirror", "v20.12"]
    ensures VersionsOf(names) == ["v21.08", "v21.08", "v20.12"]
  {
    ExampleNameWithPrefix();
    ExampleNameWithout();
    ExampleNamesWithSuffix();
    var n3: seq<string> := [];
    var n2 := ["v20.12"] + n3;
    var n1 := ["v21.08 mirror"] + n2;
    var n0 := ["Ubuntu"] + n1;
    VersionsOfCons("v20.12", n3);
    VersionsOfCons("v21.08 mirror", n2);
    VersionsOfCons("Ubuntu", n1);
    VersionsOfCons("USB v21.08", n0);
    assert names == ["USB v21.08"] + n0;
  }
}
