/** Access points known from earlier runs, and how a run reports those that are missing. */
module KnownAps {
  import opened Collections

  /** Python's string methods, taken as given; clean is lower() followed by strip(). */
  datatype NameText = NameText(clean: string -> string, strip: string -> string, lower: string -> string,
                               upper: string -> string)

  ghost predicate Idempotent(t: NameText) {
    forall x :: t.clean(t.clean(x)) == t.clean(x)
  }

  /** A row of the controller's summary, and a row of its list of running access points. */
  datatype SummaryRow = SummaryRow(mac: string, name: string)
  datatype ApRow = ApRow(name: string, serial: string)

  datatype Status = Online | Offline

  datatype ReportedAp = ReportedAp(name: string, mac: string, serial: string, status: Status)

  /** The two files kept between runs, by MAC address: the last names seen and the last serial numbers seen. */
  datatype Files = Files(names: map<string, string>, serials: map<string, string>)

  // ----- what a run computes

  /** Later rows win. */
  function NameToMac(t: NameText, summary: seq<SummaryRow>): (macs: map<string, string>) {
    if summary == [] then map[]
    else
      var r := summary[|summary| - 1];
      NameToMac(t, summary[..|summary| - 1])[t.strip(r.name) := t.clean(r.mac)]
  }

  function MacToName(t: NameText, summary: seq<SummaryRow>): (names: map<string, string>) {
    if summary == [] then map[]
    else
      var r := summary[|summary| - 1];
      MacToName(t, summary[..|summary| - 1])[t.clean(r.mac) := t.strip(r.name)]
  }

  /** The MAC of a running access point: by its name, or the name itself in lower case. */
  function MacOf(t: NameText, macs: map<string, string>, row: ApRow): (mac: string) {
    var name := t.strip(row.name);
    if name in macs then macs[name] else t.lower(name)
  }

  function OnlineAp(t: NameText, macs: map<string, string>, row: ApRow): (ap: ReportedAp) {
    ReportedAp(t.strip(row.name), MacOf(t, macs, row), row.serial, Online)
  }

  function OnlineAps(t: NameText, macs: map<string, string>, rows: seq<ApRow>): (aps: seq<ReportedAp>)
    ensures |aps| == |rows|
  {
    if rows == [] then []
    else OnlineAps(t, macs, rows[..|rows| - 1]) + [OnlineAp(t, macs, rows[|rows| - 1])]
  }

  lemma {:induction false} OnlineApsAt(t: NameText, macs: map<string, string>, rows: seq<ApRow>, i: nat)
    requires i < |rows|
    ensures OnlineAps(t, macs, rows)[i] == OnlineAp(t, macs, rows[i])
  {
    if i < |rows| - 1 {
      OnlineApsAt(t, macs, rows[..|rows| - 1], i);
    }
  }

  /** The MACs of the running access points. */
  ghost function Active(t: NameText, macs: map<string, string>, rows: seq<ApRow>): (active: set<string>) {
    if rows == [] then {}
    else Active(t, macs, rows[..|rows| - 1]) + {t.clean(MacOf(t, macs, rows[|rows| - 1]))}
  }

  lemma {:induction false} ActiveMembers(t: NameText, macs: map<string, string>, rows: seq<ApRow>, mac: string)
    ensures mac in Active(t, macs, rows) <==> exists i :: 0 <= i < |rows| && t.clean(MacOf(t, macs, rows[i])) == mac
  {
    if rows != [] {
      var before := rows[..|rows| - 1];
      ActiveMembers(t, macs, before, mac);
      if i :| 0 <= i < |before| && t.clean(MacOf(t, macs, before[i])) == mac {
        assert rows[i] == before[i];
      }
    }
  }

  function Known(t: NameText, files: Files, summary: seq<SummaryRow>): (known: map<string, string>) {
    files.names + MacToName(t, summary)
  }

  function NewSerials(t: NameText, serials: map<string, string>, macs: map<string, string>,
                      rows: seq<ApRow>): (newSerials: map<string, string>) {
    if rows == [] then serials
    else
      var s, r := NewSerials(t, serials, macs, rows[..|rows| - 1]), rows[|rows| - 1];
      if MacOf(t, macs, r) != "" && r.serial != "" then s[t.clean(MacOf(t, macs, r)) := r.serial] else s
  }

  function OfflineAp(t: NameText, known: map<string, string>, serials: map<string, string>,
                     mac: string): (ap: ReportedAp) {
    var key := t.clean(mac);
    ReportedAp(if key in known then known[key] else t.upper(mac), mac,
               if key in serials then serials[key] else "--", Offline)
  }

  // ----- one run

  /** The report of a run: the running access points in order, then every other known one once, in any order. */
  ghost predicate IsReport(t: NameText, files: Files, summary: seq<SummaryRow>, rows: seq<ApRow>, missing: seq<string>,
                           eaps: seq<ReportedAp>) {
    var known, serials := Known(t, files, summary), NewSerials(t, files.serials, NameToMac(t, summary), rows);
    && Distinct(missing) && (forall m :: m in missing <==> m in known && m !in Active(t, NameToMac(t, summary), rows))
    && |eaps| == |rows| + |missing|
    && eaps[..|rows|] == OnlineAps(t, NameToMac(t, summary), rows)
    && (forall i :: |rows| <= i < |eaps| ==> eaps[i] == OfflineAp(t, known, serials, missing[i - |rows|]))
  }

  function NewFiles(t: NameText, files: Files, summary: seq<SummaryRow>, rows: seq<ApRow>): (newFiles: Files) {
    Files(Known(t, files, summary), NewSerials(t, files.serials, NameToMac(t, summary), rows))
  }

  method ReadSummary(t: NameText, summary: seq<SummaryRow>)
    returns (nameToMac: map<string, string>, macToName: map<string, string>)
    ensures nameToMac == NameToMac(t, summary) && macToName == MacToName(t, summary)
    ensures forall name, mac :: LastRowNames(t, summary, name, mac) <==> name in nameToMac && nameToMac[name] == mac
    ensures forall mac, name :: LastRowLists(t, summary, mac, name) <==> mac in macToName && macToName[mac] == name
  {
    nameToMac, macToName := map[], map[];
    for i := 0 to |summary|
      invariant nameToMac == NameToMac(t, summary[..i]) && macToName == MacToName(t, summary[..i])
    {
      assert summary[..i + 1][..i] == summary[..i];
      var mac, name := t.clean(summary[i].mac), t.strip(summary[i].name);
      nameToMac := nameToMac[name := mac];
      macToName := macToName[mac := name];
    }
    assert summary[..|summary|] == summary;
    forall name, mac ensures LastRowNames(t, summary, name, mac) <==> name in nameToMac && nameToMac[name] == mac {
      LookupFindsLast(t, summary, name, mac);
    }
    forall mac, name ensures LastRowLists(t, summary, mac, name) <==> mac in macToName && macToName[mac] == name {
      NameFoundIsLast(t, summary, mac, name);
    }
  }

  /** The monitor's files, updated by every successful run. */
  class Monitor {
    var files: Files

    constructor (files: Files)
      ensures this.files == files
    {
      this.files := files;
    }

    method Refresh(t: NameText, summary: seq<SummaryRow>, rows: seq<ApRow>)
      returns (eaps: seq<ReportedAp>, missing: seq<string>, online: nat, offline: nat, total: nat)
      modifies this
      ensures files == NewFiles(t, old(files), summary, rows)
      ensures IsReport(t, old(files), summary, rows, missing, eaps)
      ensures ReportSays(t, old(files), summary, rows, eaps) && FilesSay(t, old(files), summary, rows, files)
      ensures total == online + offline && online == |rows| && offline == |missing|
    {
      var nameToMac, macToName := ReadSummary(t, summary);
      var merged := files.names + macToName;
      if macToName != map[] {
        files := files.(names := merged);
      }
      assert files.names == merged;

      var serials, active;
      eaps, serials, active := ReportOnline(t, nameToMac, files.serials, rows);
      assert serials == map[] ==> files.serials == map[] by { NewSerialsGrow(t, files.serials, nameToMac, rows); }
      if serials != map[] {
        files := files.(serials := serials);
      }

      var more;
      missing, more := ReportMissing(t, merged, serials, active);
      Assembled(t, nameToMac, rows, merged, serials, missing, eaps, more);
      eaps := eaps + more;
      online, offline := CountStatus(eaps, |rows|);
      total := |eaps|;
      ReportMeans(t, old(files), summary, rows, missing, eaps);
    }
  }

  lemma Assembled(t: NameText, macs: map<string, string>, rows: seq<ApRow>, known: map<string, string>,
                  serials: map<string, string>,
                  missing: seq<string>, aps: seq<ReportedAp>, more: seq<ReportedAp>)
    requires aps == OnlineAps(t, macs, rows) && |more| == |missing|
    requires forall i :: 0 <= i < |missing| ==> more[i] == OfflineAp(t, known, serials, missing[i])
    ensures var eaps := aps + more;
            && eaps[..|rows|] == OnlineAps(t, macs, rows)
            && (forall i :: |rows| <= i < |eaps| ==> eaps[i] == OfflineAp(t, known, serials, missing[i - |rows|]))
            && (forall i :: 0 <= i < |eaps| ==> (eaps[i].status == Online <==> i < |rows|))
  {
    forall i: nat | i < |rows| ensures aps[i].status == Online { OnlineApsAt(t, macs, rows, i); }
  }

  /** The loop over the running access points. */
  method ReportOnline(t: NameText, nameToMac: map<string, string>, known: map<string, string>, rows: seq<ApRow>)
    returns (aps: seq<ReportedAp>, serials: map<string, string>, active: set<string>)
    ensures aps == OnlineAps(t, nameToMac, rows)
    ensures serials == NewSerials(t, known, nameToMac, rows)
    ensures active == Active(t, nameToMac, rows)
  {
    serials, active, aps := known, {}, [];
    for i := 0 to |rows|
      invariant aps == OnlineAps(t, nameToMac, rows[..i])
      invariant active == Active(t, nameToMac, rows[..i])
      invariant serials == NewSerials(t, known, nameToMac, rows[..i])
    {
      assert rows[..i + 1][..i] == rows[..i];
      var name := t.strip(rows[i].name);
      var mac := if name in nameToMac then nameToMac[name] else t.lower(name);
      active := active + {t.clean(mac)};
      if mac != "" && rows[i].serial != "" {
        serials := serials[t.clean(mac) := rows[i].serial];
      }
      aps := aps + [ReportedAp(name, mac, rows[i].serial, Online)];
    }
    assert rows[..|rows|] == rows;
  }

  lemma {:induction false} NewSerialsGrow(t: NameText, serials: map<string, string>, macs: map<string, string>,
                                          rows: seq<ApRow>)
    ensures serials.Keys <= NewSerials(t, serials, macs, rows).Keys
  {
    if rows != [] {
      NewSerialsGrow(t, serials, macs, rows[..|rows| - 1]);
    }
  }

  /** The loop over the set of missing MACs, in whatever order it comes. */
  method ReportMissing(t: NameText, known: map<string, string>, serials: map<string, string>, active: set<string>)
    returns (missing: seq<string>, aps: seq<ReportedAp>)
    ensures Distinct(missing) && forall m :: m in missing <==> m in known && m !in active
    ensures |aps| == |missing| && forall i :: 0 <= i < |missing| ==> aps[i] == OfflineAp(t, known, serials, missing[i])
  {
    var offlineMacs := known.Keys - active;
    var todo := offlineMacs;
    missing, aps := [], [];
    while todo != {}
      invariant todo <= offlineMacs
      invariant Distinct(missing) && forall m :: m in missing <==> m in offlineMacs - todo
      invariant |aps| == |missing|
      invariant forall i :: 0 <= i < |missing| ==> aps[i] == OfflineAp(t, known, serials, missing[i])
      decreases todo
    {
      var mac :| mac in todo;
      assert mac !in missing;
      todo := todo - {mac};
      missing := missing + [mac];
      aps := aps + [OfflineAp(t, known, serials, mac)];
    }
  }

  method CountStatus(eaps: seq<ReportedAp>, ghost n: nat) returns (online: nat, offline: nat)
    requires n <= |eaps|
    requires forall i :: 0 <= i < |eaps| ==> (eaps[i].status == Online <==> i < n)
    ensures online == n && offline == |eaps| - n
  {
    online, offline := 0, 0;
    for i := 0 to |eaps|
      invariant online == (if i <= n then i else n) && offline == i - online
    {
      match eaps[i].status
      case Online => online := online + 1;
      case Offline => offline := offline + 1;
    }
  }

  // ----- what a report says

  ghost predicate ReportedOnline(t: NameText, eaps: seq<ReportedAp>, mac: string) {
    exists i :: 0 <= i < |eaps| && eaps[i].status == Online && t.clean(eaps[i].mac) == mac
  }

  ghost predicate ReportedOffline(eaps: seq<ReportedAp>, mac: string) {
    exists i :: 0 <= i < |eaps| && eaps[i].status == Offline && eaps[i].mac == mac
  }

  /** Every known MAC is reported, online or offline and never both, and offline at most once. */
  lemma KnownReportedOnce(t: NameText, files: Files, summary: seq<SummaryRow>, rows: seq<ApRow>, missing: seq<string>,
                          eaps: seq<ReportedAp>, mac: string)
    requires IsReport(t, files, summary, rows, missing, eaps) && mac in Known(t, files, summary)
    ensures ReportedOnline(t, eaps, mac) <==> mac in Active(t, NameToMac(t, summary), rows)
    ensures ReportedOffline(eaps, mac) <==> mac !in Active(t, NameToMac(t, summary), rows)
    ensures forall i, j ::
              0 <= i < j < |eaps| && eaps[i].status == Offline && eaps[j].status == Offline ==>
                eaps[i].mac != eaps[j].mac
  {
    var macs := NameToMac(t, summary);
    ActiveMembers(t, macs, rows, mac);
    if mac in Active(t, macs, rows) {
      var i :| 0 <= i < |rows| && t.clean(MacOf(t, macs, rows[i])) == mac;
      OnlineApsAt(t, macs, rows, i);
      assert eaps[i] == eaps[..|rows|][i];
    } else {
      var i :| 0 <= i < |missing| && missing[i] == mac;
      var k := |rows| + i;
      assert eaps[k].mac == missing[k - |rows|] == mac;
    }
    forall i: nat | i < |rows| ensures eaps[i].status == Online && t.clean(eaps[i].mac) in Active(t, macs, rows) {
      ActiveMembers(t, macs, rows, t.clean(MacOf(t, macs, rows[i])));
      OnlineApsAt(t, macs, rows, i);
      assert eaps[i] == eaps[..|rows|][i];
    }
  }

  // ----- the lookups: the last row of a name, and of a MAC, counts

  ghost predicate LastOfName(t: NameText, summary: seq<SummaryRow>, k: nat) {
    k < |summary| && forall j :: k < j < |summary| ==> t.strip(summary[j].name) != t.strip(summary[k].name)
  }

  ghost predicate LastOfMac(t: NameText, summary: seq<SummaryRow>, k: nat) {
    k < |summary| && forall j :: k < j < |summary| ==> t.clean(summary[j].mac) != t.clean(summary[k].mac)
  }

  /** Row k is the last row of this name, and has this MAC. */
  ghost predicate Names(t: NameText, summary: seq<SummaryRow>, k: nat, name: string, mac: string) {
    LastOfName(t, summary, k) && t.strip(summary[k].name) == name && t.clean(summary[k].mac) == mac
  }

  ghost predicate LastRowNames(t: NameText, summary: seq<SummaryRow>, name: string, mac: string) {
    exists k: nat :: Names(t, summary, k, name, mac)
  }

  /** The lookup by name finds the last row of that name, and nothing else. */
  lemma {:induction false} LookupFindsLast(t: NameText, summary: seq<SummaryRow>, name: string, mac: string)
    ensures name in NameToMac(t, summary) && NameToMac(t, summary)[name] == mac <==> LastRowNames(t, summary, name, mac)
  {
    if summary != [] {
      var n := |summary| - 1;
      var before := summary[..n];
      LookupFindsLast(t, before, name, mac);
      if t.strip(summary[n].name) == name {
        assert Names(t, summary, n, name, t.clean(summary[n].mac));
      } else {
        forall k: nat ensures Names(t, summary, k, name, mac) <==> Names(t, before, k, name, mac) {
          assert forall j :: 0 <= j < n ==> before[j] == summary[j];
        }
      }
    }
  }

  /** Row k is the last row of this MAC, and has this name. */
  ghost predicate Lists(t: NameText, summary: seq<SummaryRow>, k: nat, mac: string, name: string) {
    LastOfMac(t, summary, k) && t.clean(summary[k].mac) == mac && t.strip(summary[k].name) == name
  }

  ghost predicate LastRowLists(t: NameText, summary: seq<SummaryRow>, mac: string, name: string) {
    exists k: nat :: Lists(t, summary, k, mac, name)
  }

  /** The lookup by MAC finds the last row of that MAC, and nothing else. */
  lemma {:induction false} NameFoundIsLast(t: NameText, summary: seq<SummaryRow>, mac: string, name: string)
    ensures mac in MacToName(t, summary) && MacToName(t, summary)[mac] == name <==> LastRowLists(t, summary, mac, name)
  {
    if summary != [] {
      var n := |summary| - 1;
      var before := summary[..n];
      NameFoundIsLast(t, before, mac, name);
      if t.clean(summary[n].mac) == mac {
        assert Lists(t, summary, n, mac, t.strip(summary[n].name));
      } else {
        forall k: nat ensures Lists(t, summary, k, mac, name) <==> Lists(t, before, k, mac, name) {
          assert forall j :: 0 <= j < n ==> before[j] == summary[j];
        }
      }
    }
  }

  // ----- access points that share a name

  ghost predicate Listed(t: NameText, summary: seq<SummaryRow>, name: string) {
    exists k :: 0 <= k < |summary| && t.strip(summary[k].name) == name
  }

  /** The MAC of a running access point: of the last summary row of its name or, unlisted, the name in lower case. */
  ghost predicate GivesMac(t: NameText, summary: seq<SummaryRow>, row: ApRow, mac: string) {
    var name := t.strip(row.name);
    if Listed(t, summary, name) then LastRowNames(t, summary, name, mac) else mac == t.lower(name)
  }

  /** A running access point counts as this MAC. */
  ghost predicate RunsAs(t: NameText, summary: seq<SummaryRow>, row: ApRow, mac: string) {
    exists m :: GivesMac(t, summary, row, m) && t.clean(m) == mac
  }

  lemma {:induction false} NameIsListed(t: NameText, summary: seq<SummaryRow>, name: string)
    ensures name in NameToMac(t, summary) <==> Listed(t, summary, name)
  {
    if summary != [] {
      var before := summary[..|summary| - 1];
      NameIsListed(t, before, name);
      if k :| 0 <= k < |before| && t.strip(before[k].name) == name { assert summary[k] == before[k]; }
    }
  }

  lemma GivenMac(t: NameText, summary: seq<SummaryRow>, row: ApRow, mac: string)
    ensures MacOf(t, NameToMac(t, summary), row) == mac <==> GivesMac(t, summary, row, mac)
  {
    var name := t.strip(row.name);
    NameIsListed(t, summary, name);
    LookupFindsLast(t, summary, name, mac);
  }

  lemma RunsAsMac(t: NameText, summary: seq<SummaryRow>, row: ApRow, mac: string)
    ensures t.clean(MacOf(t, NameToMac(t, summary), row)) == mac <==> RunsAs(t, summary, row, mac)
  {
    var m := MacOf(t, NameToMac(t, summary), row);
    GivenMac(t, summary, row, m);
    if x :| GivesMac(t, summary, row, x) && t.clean(x) == mac { GivenMac(t, summary, row, x); }
  }

  /** For every input: a MAC is reported offline exactly when it is known and no running access point counts as it. */
  lemma OfflineExactly(t: NameText, files: Files, summary: seq<SummaryRow>, rows: seq<ApRow>,
                       missing: seq<string>, eaps: seq<ReportedAp>, mac: string)
    requires IsReport(t, files, summary, rows, missing, eaps)
    ensures ReportedOffline(eaps, mac)
            <==> mac in Known(t, files, summary) && forall i :: 0 <= i < |rows| ==> !RunsAs(t, summary, rows[i], mac)
  {
    var macs := NameToMac(t, summary);
    ActiveMembers(t, macs, rows, mac);
    forall i | 0 <= i < |rows| ensures t.clean(MacOf(t, macs, rows[i])) == mac <==> RunsAs(t, summary, rows[i], mac) {
      RunsAsMac(t, summary, rows[i], mac);
    }
    if mac in Known(t, files, summary) {
      KnownReportedOnce(t, files, summary, rows, missing, eaps, mac);
    } else {
      OnlyKnownOffline(t, files, summary, rows, missing, eaps, mac);
    }
  }

  lemma OnlyKnownOffline(t: NameText, files: Files, summary: seq<SummaryRow>, rows: seq<ApRow>,
                         missing: seq<string>, eaps: seq<ReportedAp>, mac: string)
    requires IsReport(t, files, summary, rows, missing, eaps)
    ensures ReportedOffline(eaps, mac) ==> mac in Known(t, files, summary)
  {
    forall i: nat | i < |rows| ensures eaps[i].status == Online {
      OnlineApsAt(t, NameToMac(t, summary), rows, i);
      assert eaps[i] == eaps[..|rows|][i];
    }
    if i :| 0 <= i < |eaps| && eaps[i].status == Offline && eaps[i].mac == mac {
      assert missing[i - |rows|] in missing;
    }
  }

  /**
   An access point that the summary lists once, and whose MAC no unlisted running name spells, is reported offline
   exactly when it is not running under its name or a later row of the summary has the same name: the earlier of two
   access points that share a name is reported offline although it runs.
   */
  lemma SharedNameReportedOffline(t: NameText, files: Files, summary: seq<SummaryRow>, rows: seq<ApRow>,
                                  missing: seq<string>, eaps: seq<ReportedAp>, k: nat)
    requires Idempotent(t) && IsReport(t, files, summary, rows, missing, eaps)
    requires k < |summary|
    requires forall j :: 0 <= j < |summary| && t.clean(summary[j].mac) == t.clean(summary[k].mac) ==> j == k
    requires forall i :: 0 <= i < |rows| && t.clean(t.lower(t.strip(rows[i].name))) == t.clean(summary[k].mac)
                         ==> t.strip(rows[i].name) in NameToMac(t, summary)
    ensures ReportedOffline(eaps, t.clean(summary[k].mac))
            <==> !LastOfName(t, summary, k)
                 || forall i :: 0 <= i < |rows| ==> t.strip(rows[i].name) != t.strip(summary[k].name)
  {
    var mac, name := t.clean(summary[k].mac), t.strip(summary[k].name);
    ListedIsKnown(t, summary, k);
    OfflineExactly(t, files, summary, rows, missing, eaps, mac);
    forall i | 0 <= i < |rows|
      ensures RunsAs(t, summary, rows[i], mac) <==> t.strip(rows[i].name) == name && LastOfName(t, summary, k)
    {
      NameIsListed(t, summary, t.strip(rows[i].name));
      if t.strip(rows[i].name) == name && LastOfName(t, summary, k) {
        assert Names(t, summary, k, name, mac);
        assert GivesMac(t, summary, rows[i], mac);
      }
    }
  }

  /**
   Two access points of one name, both running: both are reported with the second MAC, and the first one is offline.
   */
  lemma FirstOfTwoReportedOffline(t: NameText, files: Files, name: string, mac1: string, mac2: string, serial1: string,
                                  serial2: string,
                                  missing: seq<string>, eaps: seq<ReportedAp>)
    requires Idempotent(t) && t.clean(mac1) != t.clean(mac2)
    requires IsReport(t, files, [SummaryRow(mac1, name), SummaryRow(mac2, name)],
            [ApRow(name, serial1), ApRow(name, serial2)], missing, eaps)
    ensures |eaps| >= 2 && eaps[0] == ReportedAp(t.strip(name), t.clean(mac2), serial1, Online)
    ensures eaps[1] == ReportedAp(t.strip(name), t.clean(mac2), serial2, Online)
    ensures ReportedOffline(eaps, t.clean(mac1)) && !ReportedOffline(eaps, t.clean(mac2))
  {
    var summary, rows := [SummaryRow(mac1, name), SummaryRow(mac2, name)], [ApRow(name, serial1), ApRow(name, serial2)];
    var macs := NameToMac(t, summary);
    assert t.strip(summary[1].name) == t.strip(summary[0].name) == t.strip(name) && !LastOfName(t, summary, 0);
    NameIsListed(t, summary, t.strip(name));
    SharedNameReportedOffline(t, files, summary, rows, missing, eaps, 0);
    SharedNameReportedOffline(t, files, summary, rows, missing, eaps, 1);
    assert macs[t.strip(name)] == t.clean(mac2);
    OnlineApsAt(t, macs, rows, 0);
    OnlineApsAt(t, macs, rows, 1);
    assert eaps[0] == eaps[..2][0] && eaps[1] == eaps[..2][1];
  }

  lemma {:induction false} ListedIsKnown(t: NameText, summary: seq<SummaryRow>, k: nat)
    requires k < |summary|
    ensures t.clean(summary[k].mac) in MacToName(t, summary)
  {
    if k < |summary| - 1 {
      ListedIsKnown(t, summary[..|summary| - 1], k);
    }
  }

  // ----- what a run reports and keeps, in terms of the rows

  ghost predicate KnownMac(t: NameText, files: Files, summary: seq<SummaryRow>, mac: string) {
    mac in files.names || exists k :: 0 <= k < |summary| && t.clean(summary[k].mac) == mac
  }

  /** The name kept for this MAC: that of its last summary row, else the old one. */
  ghost predicate KeepsName(t: NameText, files: Files, summary: seq<SummaryRow>, mac: string, name: string) {
    || LastRowLists(t, summary, mac, name)
    || (mac in files.names && files.names[mac] == name
        && forall k :: 0 <= k < |summary| ==> t.clean(summary[k].mac) != mac)
  }

  /** This running access point has a MAC, counts as this one and shows a serial number. */
  ghost predicate ShowsSerial(t: NameText, summary: seq<SummaryRow>, row: ApRow, mac: string) {
    row.serial != "" && exists m :: GivesMac(t, summary, row, m) && m != "" && t.clean(m) == mac
  }

  ghost predicate LastShown(t: NameText, summary: seq<SummaryRow>, rows: seq<ApRow>, i: nat, mac: string) {
    && i < |rows| && ShowsSerial(t, summary, rows[i], mac)
    && forall j :: i < j < |rows| ==> !ShowsSerial(t, summary, rows[j], mac)
  }

  /** The serial number kept for this MAC: the last one shown in this run, else the old one. */
  ghost predicate KeepsSerial(t: NameText, files: Files, summary: seq<SummaryRow>, rows: seq<ApRow>, mac: string,
                              serial: string) {
    || (exists i: nat :: LastShown(t, summary, rows, i, mac) && rows[i].serial == serial)
    || (mac in files.serials && files.serials[mac] == serial
        && forall i :: 0 <= i < |rows| ==> !ShowsSerial(t, summary, rows[i], mac))
  }

  ghost predicate OnlineEntry(t: NameText, summary: seq<SummaryRow>, row: ApRow, ap: ReportedAp) {
    ap.status == Online && ap.name == t.strip(row.name) && GivesMac(t, summary, row, ap.mac) && ap.serial == row.serial
  }

  /** Names and serial numbers are looked up under the MAC in lower case; without one, the MAC and dashes stand in. */
  ghost predicate OfflineEntry(t: NameText, files: Files, summary: seq<SummaryRow>, rows: seq<ApRow>, ap: ReportedAp) {
    var key := t.clean(ap.mac);
    && ap.status == Offline
    && (KeepsName(t, files, summary, key, ap.name)
        || (ap.name == t.upper(ap.mac) && forall name :: !KeepsName(t, files, summary, key, name)))
    && (KeepsSerial(t, files, summary, rows, key, ap.serial)
        || (ap.serial == "--" && forall serial :: !KeepsSerial(t, files, summary, rows, key, serial)))
  }

  /** The running access points in order, then every other known one. */
  ghost predicate ReportSays(t: NameText, files: Files, summary: seq<SummaryRow>, rows: seq<ApRow>,
                             eaps: seq<ReportedAp>) {
    && |rows| <= |eaps|
    && (forall i :: 0 <= i < |rows| ==> OnlineEntry(t, summary, rows[i], eaps[i]))
    && (forall i :: |rows| <= i < |eaps| ==> OfflineEntry(t, files, summary, rows, eaps[i]))
    && (forall i, j :: |rows| <= i < j < |eaps| ==> eaps[i].mac != eaps[j].mac)
    && (forall mac :: ReportedOffline(eaps, mac)
          <==> KnownMac(t, files, summary, mac) && forall i :: 0 <= i < |rows| ==> !RunsAs(t, summary, rows[i], mac))
  }

  ghost predicate FilesSay(t: NameText, files: Files, summary: seq<SummaryRow>, rows: seq<ApRow>, newFiles: Files) {
    && (forall mac, name ::
          KeepsName(t, files, summary, mac, name) <==> mac in newFiles.names && newFiles.names[mac] == name)
    && (forall mac, serial ::
          KeepsSerial(t, files, summary, rows, mac, serial)
          <==> mac in newFiles.serials && newFiles.serials[mac] == serial)
  }

  lemma {:induction false} MacIsListed(t: NameText, summary: seq<SummaryRow>, mac: string)
    ensures mac in MacToName(t, summary) <==> exists k :: 0 <= k < |summary| && t.clean(summary[k].mac) == mac
  {
    if summary != [] {
      var before := summary[..|summary| - 1];
      MacIsListed(t, before, mac);
      if k :| 0 <= k < |before| && t.clean(before[k].mac) == mac { assert summary[k] == before[k]; }
    }
  }

  lemma NameKept(t: NameText, files: Files, summary: seq<SummaryRow>, mac: string, name: string)
    ensures mac in Known(t, files, summary) <==> KnownMac(t, files, summary, mac)
    ensures KeepsName(t, files, summary, mac, name)
            <==> mac in Known(t, files, summary) && Known(t, files, summary)[mac] == name
  {
    MacIsListed(t, summary, mac);
    NameFoundIsLast(t, summary, mac, name);
  }

  lemma ShownIsRead(t: NameText, summary: seq<SummaryRow>, row: ApRow, mac: string)
    ensures var m := MacOf(t, NameToMac(t, summary), row);
            ShowsSerial(t, summary, row, mac) <==> row.serial != "" && m != "" && t.clean(m) == mac
  {
    var m := MacOf(t, NameToMac(t, summary), row);
    GivenMac(t, summary, row, m);
    if x :| GivesMac(t, summary, row, x) && x != "" && t.clean(x) == mac { GivenMac(t, summary, row, x); }
  }

  /** One running access point more: the serial number it shows replaces the one kept for its MAC. */
  lemma SerialNext(t: NameText, files: Files, summary: seq<SummaryRow>, rows: seq<ApRow>, mac: string, serial: string)
    requires rows != []
    ensures var n := |rows| - 1;
            KeepsSerial(t, files, summary, rows, mac, serial)
            <==> if ShowsSerial(t, summary, rows[n], mac) then rows[n].serial == serial
                 else KeepsSerial(t, files, summary, rows[..n], mac, serial)
  {
    var n := |rows| - 1;
    var before := rows[..n];
    if ShowsSerial(t, summary, rows[n], mac) {
      assert LastShown(t, summary, rows, n, mac);
    } else {
      forall i: nat ensures LastShown(t, summary, rows, i, mac) <==> LastShown(t, summary, before, i, mac) {
        assert forall j :: 0 <= j < n ==> before[j] == rows[j];
      }
      assert forall i :: 0 <= i < n ==> before[i] == rows[i];
    }
  }

  lemma {:induction false} SerialKept(t: NameText, files: Files, summary: seq<SummaryRow>, rows: seq<ApRow>,
                                      mac: string,
                                      serial: string)
    ensures var serials := NewSerials(t, files.serials, NameToMac(t, summary), rows);
            KeepsSerial(t, files, summary, rows, mac, serial) <==> mac in serials && serials[mac] == serial
    decreases |rows|
  {
    if rows != [] {
      var n := |rows| - 1;
      SerialKept(t, files, summary, rows[..n], mac, serial);
      SerialNext(t, files, summary, rows, mac, serial);
      ShownIsRead(t, summary, rows[n], mac);
    }
  }

  lemma OfflineEntryRead(t: NameText, files: Files, summary: seq<SummaryRow>, rows: seq<ApRow>, mac: string)
    ensures var serials := NewSerials(t, files.serials, NameToMac(t, summary), rows);
            OfflineEntry(t, files, summary, rows, OfflineAp(t, Known(t, files, summary), serials, mac))
  {
    var key := t.clean(mac);
    var serials := NewSerials(t, files.serials, NameToMac(t, summary), rows);
    forall name
      ensures KeepsName(t, files, summary, key, name)
              <==> key in Known(t, files, summary) && Known(t, files, summary)[key] == name
    {
      NameKept(t, files, summary, key, name);
    }
    forall serial
      ensures KeepsSerial(t, files, summary, rows, key, serial) <==> key in serials && serials[key] == serial
    {
      SerialKept(t, files, summary, rows, key, serial);
    }
  }

  /** What every run reports, and keeps in its files, follows from the rows as stated. */
  lemma ReportMeans(t: NameText, files: Files, summary: seq<SummaryRow>, rows: seq<ApRow>, missing: seq<string>,
                    eaps: seq<ReportedAp>)
    requires IsReport(t, files, summary, rows, missing, eaps)
    ensures ReportSays(t, files, summary, rows, eaps)
    ensures FilesSay(t, files, summary, rows, NewFiles(t, files, summary, rows))
  {
    var macs := NameToMac(t, summary);
    forall i: nat | i < |rows| ensures OnlineEntry(t, summary, rows[i], eaps[i]) {
      OnlineApsAt(t, macs, rows, i);
      assert eaps[i] == eaps[..|rows|][i];
      GivenMac(t, summary, rows[i], eaps[i].mac);
    }
    forall i: nat | |rows| <= i < |eaps| ensures OfflineEntry(t, files, summary, rows, eaps[i]) {
      OfflineEntryRead(t, files, summary, rows, missing[i - |rows|]);
    }
    forall mac
      ensures ReportedOffline(eaps, mac)
              <==> KnownMac(t, files, summary, mac) && forall i :: 0 <= i < |rows| ==> !RunsAs(t, summary, rows[i], mac)
    {
      OfflineExactly(t, files, summary, rows, missing, eaps, mac);
      NameKept(t, files, summary, mac, "");
    }
    forall mac, name
      ensures KeepsName(t, files, summary, mac, name)
              <==> mac in Known(t, files, summary) && Known(t, files, summary)[mac] == name
    {
      NameKept(t, files, summary, mac, name);
    }
    var serials := NewSerials(t, files.serials, macs, rows);
    forall mac, serial
      ensures KeepsSerial(t, files, summary, rows, mac, serial) <==> mac in serials && serials[mac] == serial
    {
      SerialKept(t, files, summary, rows, mac, serial);
    }
  }

  // ----- over many runs

  /** The rows a run received, and what it reported. */
  datatype Run = Run(summary: seq<SummaryRow>, rows: seq<ApRow>, missing: seq<string>, eaps: seq<ReportedAp>)

  datatype History = Start | After(before: History, run: Run)

  /** The files once the runs of the history are over. */
  ghost function FilesAfter(t: NameText, files: Files, h: History): (last: Files) {
    match h
    case Start => files
    case After(before, run) => NewFiles(t, FilesAfter(t, files, before), run.summary, run.rows)
  }

  ghost predicate IsHistory(t: NameText, files: Files, h: History) {
    match h
    case Start => true
    case After(before, run) =>
      IsHistory(t, files, before) && IsReport(t, FilesAfter(t, files, before), run.summary, run.rows, run.missing,
        run.eaps)
  }

  /** Some run of the history has this MAC in its summary. */
  ghost predicate Seen(t: NameText, h: History, mac: string) {
    match h
    case Start => false
    case After(before, run) => Seen(t, before, mac) || mac in MacToName(t, run.summary)
  }

  /** The known MACs are exactly those of the first file and those some summary listed; so none is ever forgotten. */
  lemma {:induction false} KnownIsSeen(t: NameText, files: Files, h: History, mac: string)
    ensures mac in FilesAfter(t, files, h).names <==> mac in files.names || Seen(t, h, mac)
  {
    match h
    case Start =>
    case After(before, run) => KnownIsSeen(t, files, before, mac);
  }

  /** The last run of any history reports every MAC that was known at the start or seen in any run so far. */
  lemma EverySeenIsReported(t: NameText, files: Files, before: History, run: Run, mac: string)
    requires IsHistory(t, files, After(before, run))
    requires mac in files.names || Seen(t, After(before, run), mac)
    ensures ReportedOnline(t, run.eaps, mac) != ReportedOffline(run.eaps, mac)
  {
    KnownIsSeen(t, files, After(before, run), mac);
    KnownReportedOnce(t, FilesAfter(t, files, before), run.summary, run.rows, run.missing, run.eaps, mac);
  }
}
