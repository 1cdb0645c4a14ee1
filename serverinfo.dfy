/**
 * The `ServerInfo` class of lib/server_info.js: the host's first external
 * IPv4 address and the list of its MAC addresses, read from the table that
 * `os.networkInterfaces()` returns. The table is a parameter here.
 */
module ServerInfo {
  import opened Wrappers

  /** One address record of an interface, with the fields the class reads. */
  datatype NetworkInterface = NetworkInterface(address: string, family: string, mac: string, internal: bool)

  /** Interface names with their address records, in the object's key order. */
  type InterfaceTable = seq<(string, seq<NetworkInterface>)>

  /** Every address record: interfaces in key order, then records in list order. */
  function Entries(table: InterfaceTable): seq<NetworkInterface> {
    if |table| == 0 then [] else Entries(table[..|table| - 1]) + table[|table| - 1].1
  }

  lemma {:induction false} EntriesAppend(t: InterfaceTable, u: InterfaceTable)
    ensures Entries(t + u) == Entries(t) + Entries(u)
    decreases |u|
  {
    if |u| == 0 {
      assert t + u == t;
    } else {
      var u' := u[..|u| - 1];
      assert (t + u)[..|t + u| - 1] == t + u';
      EntriesAppend(t, u');
    }
  }

  /** Entries of the first k + 1 interfaces: those of the first k, then the records of interface k. */
  lemma EntriesPrefix(table: InterfaceTable, k: nat)
    requires k < |table|
    ensures Entries(table[..k + 1]) == Entries(table[..k]) + table[k].1
  {
    assert table[..k + 1][..k] == table[..k];
  }

  // ---------------------------------------------------------------------
  // The all-zero pattern /(?:[0]{1,2}[:-]){5}[0]{1,2}/
  // ---------------------------------------------------------------------

  predicate IsSeparator(c: char) {
    c == ':' || c == '-'
  }

  /** A match of `(?:[0]{1,2}[:-]){groups}[0]{1,2}` starts at position i of s. */
  predicate MatchAt(s: string, i: nat, groups: nat)
    decreases groups
  {
    if groups == 0 then
      i < |s| && s[i] == '0'
    else
      (i + 1 < |s| && s[i] == '0' && IsSeparator(s[i + 1]) && MatchAt(s, i + 2, groups - 1)) ||
      (i + 2 < |s| && s[i] == '0' && s[i + 1] == '0' && IsSeparator(s[i + 2]) && MatchAt(s, i + 3, groups - 1))
  }

  /** The whole pattern, `{5}` groups and the final zeros, matches at position i. */
  predicate ZeroMatchAt(s: string, i: nat) {
    MatchAt(s, i, 5)
  }

  /** The scan of a regex engine: try each start position from i on. */
  predicate ZeroPatternFrom(s: string, i: nat)
    decreases |s| - i
  {
    i < |s| && (ZeroMatchAt(s, i) || ZeroPatternFrom(s, i + 1))
  }

  /** `zeroRegex.test(s)`. */
  predicate ContainsZeroPattern(s: string) {
    ZeroPatternFrom(s, 0)
  }

  /** The scan from i finds a match exactly when one starts at some position from i on. */
  lemma {:induction false} ZeroPatternFromAt(s: string, i: nat)
    ensures ZeroPatternFrom(s, i) <==> exists k :: i <= k < |s| && ZeroMatchAt(s, k)
    decreases |s| - i
  {
    if i < |s| {
      ZeroPatternFromAt(s, i + 1);
      if exists k :: i <= k < |s| && ZeroMatchAt(s, k) {
        var k :| i <= k < |s| && ZeroMatchAt(s, k);
        if k > i {
          assert i + 1 <= k < |s| && ZeroMatchAt(s, k);
        }
      }
    }
  }

  /** The regex test is a substring search: it holds exactly when a match starts somewhere. */
  lemma ZeroPatternAt(s: string)
    ensures ContainsZeroPattern(s) <==> exists k :: 0 <= k < |s| && ZeroMatchAt(s, k)
  {
    ZeroPatternFromAt(s, 0);
  }

  /** The pattern is unanchored: a MAC address with a run of zero octets inside is dropped too. */
  lemma ZeroPatternExamples()
    ensures ContainsZeroPattern("00:00:00:00:00:00")
    ensures ContainsZeroPattern("10:00:00:00:00:01")
    ensures ContainsZeroPattern("0-0-0-0-0-0")
  {
    assert MatchAt("00:00:00:00:00:00", 0, 5);
    assert MatchAt("10:00:00:00:00:01", 1, 5);
    assert ZeroPatternFrom("10:00:00:00:00:01", 1);
    assert MatchAt("0-0-0-0-0-0", 0, 5);
  }

  /** Every match starts with a zero, so the scan fails on a stretch without one. */
  lemma {:induction false} NoZeroNoPattern(s: string, i: nat)
    requires i <= |s| && '0' !in s[i..]
    ensures !ZeroPatternFrom(s, i)
    decreases |s| - i
  {
    if i < |s| {
      assert s[i] == s[i..][0];
      assert s[i + 1..] == s[i..][1..];
      NoZeroNoPattern(s, i + 1);
    }
  }

  /** An ordinary MAC address with a single zero digit passes the filter. */
  lemma OrdinaryMacKept()
    ensures !ContainsZeroPattern("f0:18:98:32:4e:e5")
  {
    var s := "f0:18:98:32:4e:e5";
    assert s[2..] == ":18:98:32:4e:e5";
    NoZeroNoPattern(s, 2);
    assert !ZeroMatchAt(s, 1) by {
      assert s[3] != '0' && s[2] != '0';
    }
  }

  // ---------------------------------------------------------------------
  // Reference definitions
  // ---------------------------------------------------------------------

  /** The `list` that the nested `map` calls fill: every MAC without the zero pattern, in entry order. */
  function NonZeroMacs(entries: seq<NetworkInterface>): seq<string> {
    if |entries| == 0 then []
    else
      var last := entries[|entries| - 1];
      NonZeroMacs(entries[..|entries| - 1]) + (if ContainsZeroPattern(last.mac) then [] else [last.mac])
  }

  /** `[...new Set(list)]`: each value once, at the place it first occurs. */
  function Dedup(xs: seq<string>): seq<string> {
    if |xs| == 0 then []
    else
      var d := Dedup(xs[..|xs| - 1]);
      if xs[|xs| - 1] in d then d else d + [xs[|xs| - 1]]
  }

  predicate NoDuplicates(xs: seq<string>) {
    forall i, j :: 0 <= i < j < |xs| ==> xs[i] != xs[j]
  }

  /** The position of the first occurrence of x in xs. */
  function FirstIndex(xs: seq<string>, x: string): (r: nat)
    requires x in xs
    ensures r < |xs| && xs[r] == x && x !in xs[..r]
  {
    var init := xs[..|xs| - 1];
    if x in init then
      var r := FirstIndex(init, x);
      assert xs[..r] == init[..r];
      r
    else
      assert xs[..|xs| - 1] == init;
      |xs| - 1
  }

  /** An address record `getIpAddress` accepts. */
  predicate Qualified(e: NetworkInterface) {
    e.family == "IPv4" && e.address != "127.0.0.1" && !e.internal
  }

  /** The address of the first accepted record, or `None` (undefined) when there is none. */
  function FirstQualified(entries: seq<NetworkInterface>): Option<string> {
    if |entries| == 0 then None
    else if Qualified(entries[0]) then Some(entries[0].address)
    else FirstQualified(entries[1..])
  }

  // ---------------------------------------------------------------------
  // Lemmas about the reference definitions
  // ---------------------------------------------------------------------

  /** A MAC is listed exactly when some record carries it and it has no zero pattern. */
  lemma {:induction false} NonZeroMacsMembers(entries: seq<NetworkInterface>, m: string)
    ensures m in NonZeroMacs(entries) <==>
            !ContainsZeroPattern(m) && exists i :: 0 <= i < |entries| && entries[i].mac == m
  {
    if |entries| > 0 {
      var init := entries[..|entries| - 1];
      NonZeroMacsMembers(init, m);
      if exists i :: 0 <= i < |entries| && entries[i].mac == m {
        var i :| 0 <= i < |entries| && entries[i].mac == m;
        if i < |init| {
          assert init[i].mac == m;
        }
      }
      if exists i :: 0 <= i < |init| && init[i].mac == m {
        var i :| 0 <= i < |init| && init[i].mac == m;
        assert entries[i].mac == m;
      }
    }
  }

  lemma {:induction false} DedupMembers(xs: seq<string>, x: string)
    ensures x in Dedup(xs) <==> x in xs
  {
    if |xs| > 0 {
      var init := xs[..|xs| - 1];
      DedupMembers(init, x);
      assert xs == init + [xs[|xs| - 1]];
    }
  }

  lemma {:induction false} DedupNoDuplicates(xs: seq<string>)
    ensures NoDuplicates(Dedup(xs))
  {
    if |xs| > 0 {
      DedupNoDuplicates(xs[..|xs| - 1]);
    }
  }

  /** Dedup keeps first-occurrence order. */
  lemma {:induction false} DedupOrder(xs: seq<string>)
    ensures forall x :: x in Dedup(xs) ==> x in xs
    ensures forall i, j :: 0 <= i < j < |Dedup(xs)| ==> FirstIndex(xs, Dedup(xs)[i]) < FirstIndex(xs, Dedup(xs)[j])
  {
    forall x | x in Dedup(xs) {
      DedupMembers(xs, x);
    }
    if |xs| > 0 {
      var init := xs[..|xs| - 1];
      var x := xs[|xs| - 1];
      var d := Dedup(init);
      DedupOrder(init);
      forall y | y in init
        ensures FirstIndex(xs, y) == FirstIndex(init, y)
      {
        var k := FirstIndex(init, y);
        assert xs[..k] == init[..k];
        assert xs[k] == y;
      }
      if x !in d {
        DedupMembers(init, x);
        assert x !in xs[..|xs| - 1];
        assert FirstIndex(xs, x) == |xs| - 1;
        forall i | 0 <= i < |d|
          ensures FirstIndex(xs, d[i]) < FirstIndex(xs, x)
        {
          assert d[i] in init;
        }
      }
    }
  }

  /** Where the first accepted record comes from, and that `None` means none is accepted. */
  lemma {:induction false} FirstQualifiedSpec(entries: seq<NetworkInterface>)
    ensures FirstQualified(entries).None? <==> forall i :: 0 <= i < |entries| ==> !Qualified(entries[i])
    ensures FirstQualified(entries).Some? ==>
              exists i :: 0 <= i < |entries| && Qualified(entries[i]) && entries[i].address == FirstQualified(entries).value &&
                          forall j :: 0 <= j < i ==> !Qualified(entries[j])
  {
    if |entries| > 0 && !Qualified(entries[0]) {
      var tail := entries[1..];
      FirstQualifiedSpec(tail);
      if FirstQualified(tail).Some? {
        var i :| 0 <= i < |tail| && Qualified(tail[i]) && tail[i].address == FirstQualified(tail).value &&
                 forall j :: 0 <= j < i ==> !Qualified(tail[j]);
        assert entries[i + 1] == tail[i];
        forall j | 0 <= j < i + 1
          ensures !Qualified(entries[j])
        {
          if j > 0 {
            assert entries[j] == tail[j - 1];
          }
        }
      } else {
        forall i | 0 <= i < |entries|
          ensures !Qualified(entries[i])
        {
          if i > 0 {
            assert entries[i] == tail[i - 1];
          }
        }
      }
    }
  }

  /** No record of the sequence is accepted. */
  predicate NoneQualified(entries: seq<NetworkInterface>) {
    forall n :: 0 <= n < |entries| ==> !Qualified(entries[n])
  }

  lemma NoneQualifiedAppend(a: seq<NetworkInterface>, b: seq<NetworkInterface>)
    requires NoneQualified(a) && NoneQualified(b)
    ensures NoneQualified(a + b)
  {
    forall n | 0 <= n < |a + b|
      ensures !Qualified((a + b)[n])
    {
      if n >= |a| {
        assert (a + b)[n] == b[n - |a|];
      }
    }
  }

  /**
   * The search stops at record i of interface k when no earlier record is
   * accepted: what it returns is the first accepted address of the table.
   */
  lemma FoundAt(interfaces: InterfaceTable, k: nat, i: nat)
    requires k < |interfaces| && i < |interfaces[k].1| && Qualified(interfaces[k].1[i])
    requires NoneQualified(Entries(interfaces[..k])) && NoneQualified(interfaces[k].1[..i])
    ensures FirstQualified(Entries(interfaces)) == Some(interfaces[k].1[i].address)
  {
    var iface := interfaces[k].1;
    var skipped := Entries(interfaces[..k]) + iface[..i];
    var rest := iface[i..] + Entries(interfaces[k + 1..]);
    EntriesPrefix(interfaces, k);
    EntriesAppend(interfaces[..k + 1], interfaces[k + 1..]);
    assert interfaces[..k + 1] + interfaces[k + 1..] == interfaces;
    assert iface == iface[..i] + iface[i..];
    assert Entries(interfaces) == skipped + rest;
    NoneQualifiedAppend(Entries(interfaces[..k]), iface[..i]);
    FirstQualifiedSkip(skipped, rest);
    assert rest[0] == iface[i];
  }

  /** Records that are not accepted can be skipped. */
  lemma {:induction false} FirstQualifiedSkip(skipped: seq<NetworkInterface>, rest: seq<NetworkInterface>)
    requires NoneQualified(skipped)
    ensures FirstQualified(skipped + rest) == FirstQualified(rest)
    decreases |skipped|
  {
    if |skipped| == 0 {
      assert skipped + rest == rest;
    } else {
      var tail := skipped[1..];
      assert (skipped + rest)[1..] == tail + rest;
      forall i | 0 <= i < |tail|
        ensures !Qualified(tail[i])
      {
        assert tail[i] == skipped[i + 1];
      }
      FirstQualifiedSkip(tail, rest);
    }
  }

  /** One more record adds its MAC to the list exactly when the MAC is clean. */
  lemma NonZeroMacsSnoc(entries: seq<NetworkInterface>, e: NetworkInterface)
    ensures NonZeroMacs(entries + [e]) ==
            NonZeroMacs(entries) + (if ContainsZeroPattern(e.mac) then [] else [e.mac])
  {
    assert (entries + [e])[..|entries|] == entries;
  }

  /** One more value is kept by `Dedup` exactly when it has not been seen. */
  lemma DedupSnoc(xs: seq<string>, x: string)
    ensures Dedup(xs + [x]) == if x in Dedup(xs) then Dedup(xs) else Dedup(xs) + [x]
  {
    assert (xs + [x])[..|xs|] == xs;
  }

  /** The MAC list: no duplicates, exactly the clean MACs of the records, in first-occurrence order. */
  lemma MacListProperties(entries: seq<NetworkInterface>)
    ensures NoDuplicates(Dedup(NonZeroMacs(entries)))
    ensures forall m :: m in Dedup(NonZeroMacs(entries)) ==> m in NonZeroMacs(entries)
    ensures forall m :: m in Dedup(NonZeroMacs(entries)) <==>
              !ContainsZeroPattern(m) && exists e :: e in entries && e.mac == m
    ensures forall i, j :: 0 <= i < j < |Dedup(NonZeroMacs(entries))| ==>
              FirstIndex(NonZeroMacs(entries), Dedup(NonZeroMacs(entries))[i]) <
              FirstIndex(NonZeroMacs(entries), Dedup(NonZeroMacs(entries))[j])
  {
    var list := NonZeroMacs(entries);
    DedupNoDuplicates(list);
    DedupOrder(list);
    forall m
      ensures m in Dedup(list) <==> !ContainsZeroPattern(m) && exists e :: e in entries && e.mac == m
    {
      DedupMembers(list, m);
      NonZeroMacsMembers(entries, m);
      if exists e :: e in entries && e.mac == m {
        var e :| e in entries && e.mac == m;
        var n :| 0 <= n < |entries| && entries[n] == e;
      }
    }
  }

  // ---------------------------------------------------------------------
  // The methods
  // ---------------------------------------------------------------------

  /**
   * `getMacAddress()`: collect every MAC without the zero pattern, then
   * deduplicate through a set, keeping first occurrences in order.
   */
  method GetMacAddress(network: InterfaceTable) returns (macs: seq<string>)
    ensures macs == Dedup(NonZeroMacs(Entries(network)))
    ensures NoDuplicates(macs)
    ensures forall m :: m in macs ==> m in NonZeroMacs(Entries(network))
    ensures forall m :: m in macs <==>
              !ContainsZeroPattern(m) && exists e :: e in Entries(network) && e.mac == m
    ensures forall i, j :: 0 <= i < j < |macs| ==>
              FirstIndex(NonZeroMacs(Entries(network)), macs[i]) < FirstIndex(NonZeroMacs(Entries(network)), macs[j])
  {
    var list := CollectMacs(network);
    macs := UniqueInOrder(list);
    MacListProperties(Entries(network));
  }

  /** The two nested loops of `getMacAddress()`: every MAC without the zero pattern, in table order. */
  method CollectMacs(network: InterfaceTable) returns (list: seq<string>)
    ensures list == NonZeroMacs(Entries(network))
  {
    list := [];
    var k := 0;
    while k < |network|
      invariant 0 <= k <= |network|
      invariant list == NonZeroMacs(Entries(network[..k]))
    {
      var value := network[k].1;
      var j := 0;
      assert Entries(network[..k]) + value[..0] == Entries(network[..k]);
      while j < |value|
        invariant 0 <= j <= |value|
        invariant list == NonZeroMacs(Entries(network[..k]) + value[..j])
      {
        assert Entries(network[..k]) + value[..j + 1] == (Entries(network[..k]) + value[..j]) + [value[j]];
        NonZeroMacsSnoc(Entries(network[..k]) + value[..j], value[j]);
        if !ContainsZeroPattern(value[j].mac) {
          list := list + [value[j].mac];
        }
        j := j + 1;
      }
      assert value[..j] == value;
      EntriesPrefix(network, k);
      k := k + 1;
    }
    assert network[..k] == network;
  }

  /**
   * `[...new Set(list)]`: a JavaScript `Set` iterates its values in insertion
   * order, so the spread keeps each value once, where it first occurs.
   */
  method UniqueInOrder(list: seq<string>) returns (out: seq<string>)
    ensures out == Dedup(list)
  {
    var seen: set<string> := {};
    out := [];
    var i := 0;
    while i < |list|
      invariant 0 <= i <= |list|
      invariant out == Dedup(list[..i])
      invariant forall x :: x in seen <==> x in out
    {
      DedupSnoc(list[..i], list[i]);
      assert list[..i + 1] == list[..i] + [list[i]];
      if list[i] !in seen {
        seen := seen + {list[i]};
        out := out + [list[i]];
      }
      i := i + 1;
    }
    assert list[..i] == list;
  }

  /**
   * `getIpAddress()`: the address of the first record, interfaces in key
   * order, that is IPv4, not 127.0.0.1 and not internal; `None` (undefined)
   * when there is none.
   */
  method GetIpAddress(interfaces: InterfaceTable) returns (ip: Option<string>)
    ensures ip == FirstQualified(Entries(interfaces))
  {
    var k := 0;
    while k < |interfaces|
      invariant 0 <= k <= |interfaces|
      invariant NoneQualified(Entries(interfaces[..k]))
    {
      var iface := interfaces[k].1;
      var i := 0;
      assert iface[..0] == [];
      while i < |iface|
        invariant 0 <= i <= |iface|
        invariant NoneQualified(iface[..i])
      {
        var alias := iface[i];
        if alias.family == "IPv4" && alias.address != "127.0.0.1" && !alias.internal {
          ip := Some(alias.address);
          FoundAt(interfaces, k, i);
          return;
        }
        NoneQualifiedAppend(iface[..i], [alias]);
        assert iface[..i + 1] == iface[..i] + [alias];
        i := i + 1;
      }
      assert iface[..i] == iface;
      NoneQualifiedAppend(Entries(interfaces[..k]), iface);
      EntriesPrefix(interfaces, k);
      k := k + 1;
    }
    assert interfaces[..k] == interfaces;
    FirstQualifiedSkip(Entries(interfaces), []);
    assert Entries(interfaces) + [] == Entries(interfaces);
    ip := None;
  }

  /** The object `getServerInfo()` returns. */
  datatype ServerSummary = ServerSummary(ip: Option<string>, macs: seq<string>)

  /** `getServerInfo()`, with both lookups reading the same table. */
  method GetServerInfo(network: InterfaceTable) returns (info: ServerSummary)
    ensures info.ip == FirstQualified(Entries(network))
    ensures info.macs == Dedup(NonZeroMacs(Entries(network)))
  {
    var ip := GetIpAddress(network);
    var macs := GetMacAddress(network);
    info := ServerSummary(ip, macs);
  }
}
