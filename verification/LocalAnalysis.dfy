/** The rule-based health score and the suggestions that go with it. */
module LocalAnalysis {
  import opened Collections

  /** A value from a JSON record; a missing key reads as Missing. */
  datatype JsonValue = Missing | Number(n: int) | Word(s: string)

  datatype RadioAp = RadioAp(mac: string, txPower2g: JsonValue, pwr2g: JsonValue, channel5g: JsonValue, ch5g: JsonValue)

  datatype Client = Client(rssi: JsonValue)

  /** Python's int() on text, and the value of text that is all digits; both are taken as given. */
  datatype NumberText = NumberText(toInt: string -> Option<int>, digits: string -> Option<nat>)

  predicate Truthy(f: JsonValue) {
    match f
    case Missing => false
    case Number(n) => n != 0
    case Word(s) => s != ""
  }

  function Or(a: JsonValue, b: JsonValue): (f: JsonValue) {
    if Truthy(a) then a else b
  }

  function ToInt(t: NumberText, f: JsonValue): (n: Option<int>) {
    match f
    case Missing => None
    case Number(n) => Some(n)
    case Word(s) => t.toInt(s)
  }

  predicate HighPower(t: NumberText, ap: RadioAp) {
    var v := ToInt(t, Or(ap.txPower2g, ap.pwr2g));
    v.Some? && v.value >= 20
  }

  /** The 5 GHz channel an access point counts under, if any. */
  function Channel(t: NumberText, ap: RadioAp): (c: Option<int>) {
    var f := Or(ap.channel5g, ap.ch5g);
    var v: Option<int> := match f
      case Missing => None
      case Number(n) => if n > 0 then Some(n) else None
      case Word(s) => if s != "" && t.digits(s).Some? then Some(t.digits(s).value) else None;
    if v.Some? && v.value > 14 then v else None
  }

  predicate PoorClient(t: NumberText, c: Client) {
    var v := ToInt(t, c.rssi);
    v.Some? && v.value <= -80
  }

  // ----- what these mean, field by field

  /** A field that Python takes as false: missing, zero or empty. */
  ghost predicate Empty(f: JsonValue) {
    f == Missing || f == Number(0) || f == Word("")
  }

  /** The first of the two fields counts unless it is empty. */
  ghost predicate Counts(a: JsonValue, b: JsonValue, f: JsonValue) {
    (f == a && !Empty(a)) || (f == b && Empty(a))
  }

  /** The field holds this number, or text that int() reads as it. */
  ghost predicate Reads(t: NumberText, f: JsonValue, n: int) {
    f == Number(n) || (f.Word? && t.toInt(f.s) == Some(n))
  }

  /** High power is a power of 20 or more, in tx_power_2g or, when that is empty, in pwr_2g. */
  lemma HighPowerExactly(t: NumberText, ap: RadioAp)
    ensures HighPower(t, ap) <==> exists f, n :: Counts(ap.txPower2g, ap.pwr2g, f) && Reads(t, f, n) && n >= 20
  {
    var f := if Empty(ap.txPower2g) then ap.pwr2g else ap.txPower2g;
    assert Counts(ap.txPower2g, ap.pwr2g, f) && Or(ap.txPower2g, ap.pwr2g) == f;
    if HighPower(t, ap) {
      assert Reads(t, f, ToInt(t, f).value);
    }
  }

  /** A counted channel is a whole number above 14, in channel_5g or, when that is empty, in ch_5g. */
  lemma ChannelExactly(t: NumberText, ap: RadioAp, c: int)
    ensures Channel(t, ap) == Some(c)
            <==> c > 14 && exists f :: Counts(ap.channel5g, ap.ch5g, f)
                                       && (f == Number(c) || (f.Word? && f.s != "" && t.digits(f.s) == Some(c)))
  {
    var f := if Empty(ap.channel5g) then ap.ch5g else ap.channel5g;
    assert Counts(ap.channel5g, ap.ch5g, f) && Or(ap.channel5g, ap.ch5g) == f;
  }

  /** A poor client has a signal of -80 or less. */
  lemma PoorClientExactly(t: NumberText, c: Client)
    ensures PoorClient(t, c) <==> exists n :: Reads(t, c.rssi, n) && n <= -80
  {
    if PoorClient(t, c) {
      assert Reads(t, c.rssi, ToInt(t, c.rssi).value);
    }
  }

  function Min(a: nat, b: nat): (least: nat) {
    if a <= b then a else b
  }

  // ----- counting, independently of order

  ghost function CountIf<T>(p: T -> bool, s: seq<T>): (n: nat) {
    if s == [] then 0 else CountIf(p, s[..|s| - 1]) + if p(s[|s| - 1]) then 1 else 0
  }

  lemma {:induction false} CountConcat<T>(p: T -> bool, a: seq<T>, b: seq<T>)
    ensures CountIf(p, a + b) == CountIf(p, a) + CountIf(p, b)
    decreases |b|
  {
    if b == [] {
      assert a + b == a;
    } else {
      assert (a + b)[..|a + b| - 1] == a + b[..|b| - 1];
      CountConcat(p, a, b[..|b| - 1]);
    }
  }

  lemma CountInsert<T>(p: T -> bool, a: seq<T>, x: T, b: seq<T>)
    ensures CountIf(p, a + [x] + b) == CountIf(p, a + b) + if p(x) then 1 else 0
  {
    CountConcat(p, a + [x], b);
    CountConcat(p, a, b);
    assert (a + [x])[..|a|] == a;
  }

  lemma DropOne<T>(rest: seq<T>, x: T, a: seq<T>, b: seq<T>)
    requires multiset(rest + [x]) <= multiset(a + [x] + b)
    ensures multiset(rest) <= multiset(a + b)
  {
    var m := multiset{x};
    assert multiset(rest + [x]) == multiset(rest) + m;
    assert multiset(a + [x] + b) == multiset(a + b) + m;
    forall y ensures multiset(rest)[y] <= multiset(a + b)[y] {
      assert (multiset(rest) + m)[y] <= (multiset(a + b) + m)[y];
    }
  }

  /** More elements, in any order, never count less. */
  lemma {:induction false} CountMonotone<T>(p: T -> bool, s: seq<T>, more: seq<T>)
    requires multiset(s) <= multiset(more)
    ensures CountIf(p, s) <= CountIf(p, more)
    decreases |s|
  {
    if s != [] {
      var x, rest := s[|s| - 1], s[..|s| - 1];
      assert s == rest + [x];
      assert x in multiset(more);
      var i :| 0 <= i < |more| && more[i] == x;
      var a, b := more[..i], more[i + 1..];
      assert more == a + [x] + b;
      CountInsert(p, a, x, b);
      DropOne(rest, x, a, b);
      CountMonotone(p, rest, a + b);
    }
  }

  ghost function OnChannel(t: NumberText, c: int): (p: RadioAp -> bool) {
    ap => Channel(t, ap) == Some(c)
  }

  ghost function Counted(t: NumberText): (p: RadioAp -> bool) {
    ap => Channel(t, ap).Some?
  }

  ghost function Channels(t: NumberText, aps: seq<RadioAp>): (cs: set<int>) {
    set i | 0 <= i < |aps| && Channel(t, aps[i]).Some? :: Channel(t, aps[i]).value
  }

  /** The channels that more than one access point uses. */
  ghost function Overlapping(t: NumberText, aps: seq<RadioAp>): (cs: set<int>) {
    set c | c in Channels(t, aps) && CountIf(OnChannel(t, c), aps) > 1
  }

  ghost function Score(t: NumberText, aps: seq<RadioAp>, clients: seq<Client>): (score: int) {
    100
    - Min(CountIf((ap: RadioAp) => HighPower(t, ap), aps) * 2, 20)
    - Min(|Overlapping(t, aps)| * 8, 30)
    - Min(CountIf((c: Client) => PoorClient(t, c), clients) * 3, 20)
  }

  /** More access points or clients never raise the score; so it does not depend on their order either. */
  lemma ScoreNeverRises(t: NumberText, aps: seq<RadioAp>, clients: seq<Client>, moreAps: seq<RadioAp>,
                        moreClients: seq<Client>)
    requires multiset(aps) <= multiset(moreAps) && multiset(clients) <= multiset(moreClients)
    ensures 30 <= Score(t, moreAps, moreClients) <= Score(t, aps, clients) <= 100
  {
    CountMonotone((ap: RadioAp) => HighPower(t, ap), aps, moreAps);
    CountMonotone((c: Client) => PoorClient(t, c), clients, moreClients);
    forall c | c in Overlapping(t, aps) ensures c in Overlapping(t, moreAps) {
      var i :| 0 <= i < |aps| && Channel(t, aps[i]) == Some(c);
      assert aps[i] in multiset(aps);
      assert aps[i] in multiset(moreAps);
      CountMonotone(OnChannel(t, c), aps, moreAps);
    }
    SubsetSize(Overlapping(t, aps), Overlapping(t, moreAps));
  }

  lemma ScoreIgnoresOrder(t: NumberText, aps: seq<RadioAp>, clients: seq<Client>, aps': seq<RadioAp>,
                          clients': seq<Client>)
    requires multiset(aps) == multiset(aps') && multiset(clients) == multiset(clients')
    ensures Score(t, aps, clients) == Score(t, aps', clients')
  {
    ScoreNeverRises(t, aps, clients, aps', clients');
    ScoreNeverRises(t, aps', clients', aps, clients);
  }

  /**
   What one access point more costs: 2 for high power, ten times at most, and for a newly shared channel 8, 30 at
   most.
   */
  lemma ScoreOfOneMore(t: NumberText, aps: seq<RadioAp>, ap: RadioAp, clients: seq<Client>)
    ensures var high := CountIf((a: RadioAp) => HighPower(t, a), aps);
            var shared := |Overlapping(t, aps)|;
            var paired := Channel(t, ap).Some? && CountIf(OnChannel(t, Channel(t, ap).value), aps) == 1;
            Score(t, aps + [ap], clients) == Score(t, aps, clients)
              - (if HighPower(t, ap) && high < 10 then 2 else 0)
              - (if !paired || shared > 3 then 0 else if shared < 3 then 8 else 6)
  {
    var more := aps + [ap];
    assert more[..|more| - 1] == aps;
    OverlapsOfOneMore(t, aps, ap);
  }

  /** A channel becomes shared with its second user. */
  lemma OverlapsOfOneMore(t: NumberText, aps: seq<RadioAp>, ap: RadioAp)
    ensures var c := Channel(t, ap);
            var paired := c.Some? && CountIf(OnChannel(t, c.value), aps) == 1;
            |Overlapping(t, aps + [ap])| == |Overlapping(t, aps)| + if paired then 1 else 0
  {
    var c := if Channel(t, ap).Some? then Channel(t, ap).value else 0;
    var paired := Channel(t, ap).Some? && CountIf(OnChannel(t, c), aps) == 1;
    var before, after := Overlapping(t, aps), Overlapping(t, aps + [ap]);
    forall d ensures d in after <==> d in before || (paired && d == c) { SharedByOneMore(t, aps, ap, d); }
    OneLarger(before, after, c, paired);
  }

  lemma OneLarger(before: set<int>, after: set<int>, c: int, grows: bool)
    requires forall d :: d in after <==> d in before || (grows && d == c)
    requires grows ==> c !in before
    ensures |after| == |before| + if grows then 1 else 0
  {
    var larger := if grows then before + {c} else before;
    assert forall d :: d in after <==> d in larger;
    assert after == larger;
  }

  lemma SharedByOneMore(t: NumberText, aps: seq<RadioAp>, ap: RadioAp, d: int)
    ensures d in Overlapping(t, aps + [ap])
            <==> d in Overlapping(t, aps) || (Channel(t, ap) == Some(d) && CountIf(OnChannel(t, d), aps) == 1)
  {
    var more := aps + [ap];
    assert more[..|more| - 1] == aps;
    ChannelsNext(t, more);
    if d !in Channels(t, aps) { NobodyOn(t, aps, d); }
  }

  /**
   A poor client more costs 3, 20 at most; other clients cost nothing. With nothing to complain of the score is 100.
   */
  lemma ScoreOfOneClientMore(t: NumberText, aps: seq<RadioAp>, clients: seq<Client>, c: Client)
    ensures var poor := CountIf((x: Client) => PoorClient(t, x), clients);
            Score(t, aps, clients + [c]) == Score(t, aps, clients)
              - (if !PoorClient(t, c) || poor > 6 then 0 else if poor < 6 then 3 else 2)
    ensures Score(t, [], []) == 100
  {
    var more := clients + [c];
    assert more[..|more| - 1] == clients;
    assert Overlapping(t, []) == {};
  }

  // ----- channel suggestions

  const COMMON_CHANNELS: seq<int> := [36, 44, 52, 60, 100, 108, 116, 132, 149, 157]

  /** The first of these channels that is not in use, or 36. */
  function FirstUnused(channels: seq<int>, used: set<int>): (c: int)
    ensures (exists k :: k in channels && k !in used) ==> c in channels && c !in used
    ensures !(exists k :: k in channels && k !in used) ==> c == 36
  {
    if channels == [] then 36
    else if channels[0] !in used then channels[0]
    else
      assert forall k :: k in channels <==> k == channels[0] || k in channels[1..];
      FirstUnused(channels[1..], used)
  }

  /** The suggestion is the first channel of this list that nobody uses, or 36 when all are in use. */
  lemma SuggestedExactly(used: set<int>, k: nat)
    requires k < 10 && forall j :: 0 <= j < k ==> [36, 44, 52, 60, 100, 108, 116, 132, 149, 157][j] in used
    ensures [36, 44, 52, 60, 100, 108, 116, 132, 149, 157][k] !in used ==>
              Suggested(used) == [36, 44, 52, 60, 100, 108, 116, 132, 149, 157][k]
    ensures k == 9 && 157 in used ==> Suggested(used) == 36
  {
    FirstUnusedAt(COMMON_CHANNELS, used, k);
  }

  lemma {:induction false} FirstUnusedAt(channels: seq<int>, used: set<int>, k: nat)
    requires k < |channels| && forall j :: 0 <= j < k ==> channels[j] in used
    ensures channels[k] !in used ==> FirstUnused(channels, used) == channels[k]
    ensures k == |channels| - 1 && channels[k] in used ==> FirstUnused(channels, used) == 36
  {
    if k > 0 {
      assert channels[1..][k - 1] == channels[k];
      FirstUnusedAt(channels[1..], used, k - 1);
    }
  }

  function Suggested(used: set<int>): (c: int) {
    FirstUnused(COMMON_CHANNELS, used)
  }

  ghost predicate SameChannel(t: NumberText, aps: seq<RadioAp>, i: nat, j: nat) {
    i < |aps| && j < |aps| && Channel(t, aps[i]).Some? && Channel(t, aps[j]) == Channel(t, aps[i])
  }

  /** Some access point earlier in the list uses the same channel. */
  ghost predicate IsLater(t: NumberText, aps: seq<RadioAp>, i: nat) {
    exists j: nat :: j < i && SameChannel(t, aps, i, j)
  }

  /** The channel of the access point at i once every suggestion is followed. */
  ghost function NewChannel(t: NumberText, aps: seq<RadioAp>, i: nat): (c: Option<int>)
    requires i < |aps|
  {
    if IsLater(t, aps, i) then Some(Suggested(Channels(t, aps))) else Channel(t, aps[i])
  }

  ghost predicate Free(used: set<int>) {
    exists k :: k in COMMON_CHANNELS && k !in used
  }

  lemma ChannelUsed(t: NumberText, aps: seq<RadioAp>, i: nat)
    requires i < |aps| && Channel(t, aps[i]).Some?
    ensures Channel(t, aps[i]).value in Channels(t, aps)
  {
  }

  lemma ChannelsNext(t: NumberText, aps: seq<RadioAp>)
    requires aps != []
    ensures var before, c := aps[..|aps| - 1], Channel(t, aps[|aps| - 1]);
            Channels(t, aps) == Channels(t, before) + if c.Some? then {c.value} else {}
  {
    var before := aps[..|aps| - 1];
    forall c | c in Channels(t, before) ensures c in Channels(t, aps) {
      var i :| 0 <= i < |before| && Channel(t, before[i]) == Some(c);
      assert aps[i] == before[i];
    }
    forall c | c in Channels(t, aps) && Channel(t, aps[|aps| - 1]) != Some(c) ensures c in Channels(t, before) {
      var i :| 0 <= i < |aps| && Channel(t, aps[i]) == Some(c);
      assert aps[i] == before[i];
    }
  }

  /** The first access point of a channel in use. */
  ghost function FirstUse(t: NumberText, aps: seq<RadioAp>, c: int): (i: nat)
    requires c in Channels(t, aps)
    ensures i < |aps| && Channel(t, aps[i]) == Some(c) && !IsLater(t, aps, i)
    ensures forall j: nat :: j < i ==> Channel(t, aps[j]) != Some(c)
    decreases |aps|
  {
    var before := aps[..|aps| - 1];
    ChannelsNext(t, aps);
    if c in Channels(t, before) then
      assert forall j: nat :: j < |before| ==> aps[j] == before[j];
      FirstUse(t, before, c)
    else
      assert forall j: nat :: j < |before| ==>
          aps[j] == before[j] && (Channel(t, before[j]).Some? ==> Channel(t, before[j]).value in Channels(t, before));
      |aps| - 1
  }

  /** Each channel in use before is used by at most one access point. */
  ghost predicate OneEach(t: NumberText, aps: seq<RadioAp>) {
    forall i: nat, j: nat :: (
        && i < |aps| && j < |aps| && NewChannel(t, aps, i) == NewChannel(t, aps, j)
        && NewChannel(t, aps, i).Some? && NewChannel(t, aps, i).value in Channels(t, aps)) ==> i == j
  }

  /** No two counted access points are on one channel, the channel suggested included. */
  ghost predicate NoOverlapAfter(t: NumberText, aps: seq<RadioAp>) {
    forall i: nat, j: nat :: (
        i < |aps| && j < |aps| && NewChannel(t, aps, i) == NewChannel(t, aps, j) && NewChannel(t, aps, i).Some?)
          ==> i == j
  }

  ghost predicate NobodyLater(t: NumberText, aps: seq<RadioAp>) {
    forall i: nat :: i < |aps| ==> !IsLater(t, aps, i)
  }

  ghost predicate AtMostOneLater(t: NumberText, aps: seq<RadioAp>) {
    forall i: nat, j: nat :: i < |aps| && j < |aps| && IsLater(t, aps, i) && IsLater(t, aps, j) ==> i == j
  }

  /**
   With a listed channel free, what moves goes to a channel nobody used, and each channel used keeps its first user.
   */
  lemma FreeChannelResolves(t: NumberText, aps: seq<RadioAp>, c: int)
    requires Free(Channels(t, aps)) && c in Channels(t, aps)
    ensures exists i: nat :: i < |aps| && NewChannel(t, aps, i) == Some(c) == Channel(t, aps[i])
    ensures OneEach(t, aps)
    ensures forall i: nat :: i < |aps| && IsLater(t, aps, i) ==> NewChannel(t, aps, i).value !in Channels(t, aps)
  {
    var f := FirstUse(t, aps, c);
    assert NewChannel(t, aps, f) == Some(c);
    forall i: nat, j: nat | i < |aps| && j < |aps| && i < j && NewChannel(t, aps, i) == NewChannel(t, aps, j)
                            && NewChannel(t, aps, i).Some? && NewChannel(t, aps, i).value in Channels(t, aps)
      ensures false
    {
      assert SameChannel(t, aps, j, i);
    }
  }

  /** With none free, whoever moves joins the first user of channel 36. */
  lemma NoneFreeMeets(t: NumberText, aps: seq<RadioAp>, i: nat) returns (f: nat)
    requires !Free(Channels(t, aps)) && i < |aps| && IsLater(t, aps, i)
    ensures f < |aps| && f != i && NewChannel(t, aps, f) == NewChannel(t, aps, i) == Some(36) && 36 in Channels(t, aps)
  {
    assert 36 == COMMON_CHANNELS[0] && 36 in COMMON_CHANNELS;
    f := FirstUse(t, aps, 36);
  }

  lemma NoneLaterMeet(t: NumberText, aps: seq<RadioAp>)
    requires NobodyLater(t, aps)
    ensures NoOverlapAfter(t, aps) && OneEach(t, aps)
  {
    forall i: nat, j: nat | i < |aps| && j < |aps| && NewChannel(t, aps, i) == NewChannel(t, aps, j)
      && NewChannel(t, aps, i).Some?
      ensures i == j
    {
      assert i < j ==> SameChannel(t, aps, j, i);
      assert j < i ==> SameChannel(t, aps, i, j);
    }
  }

  /** The channels in use before keep one user each exactly when there was no overlap or a listed channel is free. */
  lemma OldChannelsKeepOneUserExactly(t: NumberText, aps: seq<RadioAp>)
    ensures OneEach(t, aps) <==> NobodyLater(t, aps) || Free(Channels(t, aps))
  {
    var used := Channels(t, aps);
    if Free(used) && used != {} {
      var c :| c in used;
      FreeChannelResolves(t, aps, c);
    }
    if NobodyLater(t, aps) {
      NoneLaterMeet(t, aps);
    } else if !Free(used) {
      var i: nat :| i < |aps| && IsLater(t, aps, i);
      var f := NoneFreeMeets(t, aps, i);
    }
  }

  /** Nobody meets a single access point that moves to a free channel. */
  lemma OneMoverResolves(t: NumberText, aps: seq<RadioAp>)
    requires Free(Channels(t, aps)) && AtMostOneLater(t, aps)
    ensures NoOverlapAfter(t, aps)
  {
    forall i: nat, j: nat | i < j < |aps| && NewChannel(t, aps, i).Some?
      ensures NewChannel(t, aps, i) != NewChannel(t, aps, j)
    {
      if !IsLater(t, aps, i) { ChannelUsed(t, aps, i); }
      if !IsLater(t, aps, j) && Channel(t, aps[j]).Some? { ChannelUsed(t, aps, j); }
      if Channel(t, aps[i]).Some? && Channel(t, aps[i]) == Channel(t, aps[j]) { assert SameChannel(t, aps, j, i); }
    }
  }

  /**
   All overlaps are gone exactly when there was none, or a listed channel is free and at most one access point moves.
   */
  lemma OverlapsGoneExactly(t: NumberText, aps: seq<RadioAp>)
    ensures NoOverlapAfter(t, aps) <==> NobodyLater(t, aps) || (Free(Channels(t, aps)) && AtMostOneLater(t, aps))
  {
    if NobodyLater(t, aps) {
      NoneLaterMeet(t, aps);
    } else if Free(Channels(t, aps)) && AtMostOneLater(t, aps) {
      OneMoverResolves(t, aps);
    } else if !Free(Channels(t, aps)) {
      var i: nat :| i < |aps| && IsLater(t, aps, i);
      var f := NoneFreeMeets(t, aps, i);
    } else {
      var i: nat, j: nat :| i < |aps| && j < |aps| && IsLater(t, aps, i) && IsLater(t, aps, j) && i != j;
      assert NewChannel(t, aps, i) == NewChannel(t, aps, j);
    }
  }

  function On(c: int): (ap: RadioAp) {
    RadioAp("", Missing, Missing, Number(c), Missing)
  }

  /** Three access points on channel 36: the two that move meet again on channel 44, whatever the text functions are. */
  lemma MoversMeetAgain(t: NumberText)
    ensures var aps := [On(36), On(36), On(36)];
            && Free(Channels(t, aps)) && OneEach(t, aps) && !NoOverlapAfter(t, aps)
            && NewChannel(t, aps, 1) == NewChannel(t, aps, 2) == Some(44)
  {
    var aps := [On(36), On(36), On(36)];
    assert Channels(t, aps) == {36} by { assert Channel(t, aps[0]) == Some(36); }
    FirstAfter36();
    assert SameChannel(t, aps, 1, 0) && SameChannel(t, aps, 2, 0);
    OldChannelsKeepOneUserExactly(t, aps);
    assert NewChannel(t, aps, 1) == NewChannel(t, aps, 2) == Some(44);
  }

  lemma FirstAfter36()
    ensures Suggested({36}) == 44 && Free({36})
  {
    assert 44 == COMMON_CHANNELS[1] && 44 in COMMON_CHANNELS && 44 == COMMON_CHANNELS[1..][0];
  }

  /** All listed channels in use and one of them twice: the access point that moves joins channel 36 again. */
  lemma FullListKeepsOverlap(t: NumberText)
    ensures var aps := seq(10, k requires 0 <= k < 10 => On(COMMON_CHANNELS[k])) + [On(44)];
            && !Free(Channels(t, aps)) && !OneEach(t, aps) && !NoOverlapAfter(t, aps)
            && NewChannel(t, aps, 0) == NewChannel(t, aps, 10) == Some(36)
  {
    var aps := seq(10, k requires 0 <= k < 10 => On(COMMON_CHANNELS[k])) + [On(44)];
    forall c | c in COMMON_CHANNELS ensures c in Channels(t, aps) {
      var k :| 0 <= k < 10 && COMMON_CHANNELS[k] == c;
      assert aps[k] == On(c);
      ChannelUsed(t, aps, k);
    }
    assert aps[1] == On(44) && SameChannel(t, aps, 10, 1);
    assert aps[0] == On(36) && !IsLater(t, aps, 0);
    assert NewChannel(t, aps, 0) == NewChannel(t, aps, 10) == Some(36);
  }

  // ----- the dictionary of channels, in insertion order

  ghost predicate Rising(s: seq<nat>) {
    forall i, j :: 0 <= i < j < |s| ==> s[i] < s[j]
  }

  /** The positions of the access points on channel c, in order. */
  ghost predicate IsGroup(t: NumberText, aps: seq<RadioAp>, c: int, g: seq<nat>) {
    && Rising(g) && |g| > 0 && |g| == CountIf(OnChannel(t, c), aps)
    && forall i: nat :: i in g <==> i < |aps| && Channel(t, aps[i]) == Some(c)
  }

  /** Each channel in use is mapped to its group. */
  ghost predicate Grouped(t: NumberText, aps: seq<RadioAp>, groups: map<int, seq<nat>>) {
    && groups.Keys == Channels(t, aps)
    && forall c {:trigger IsGroup(t, aps, c, groups[c])} :: c in groups ==> IsGroup(t, aps, c, groups[c])
  }

  /** The lengths of the groups of these channels, added up. */
  ghost function Total(order: seq<int>, groups: map<int, seq<nat>>): (total: nat) {
    if order == [] then 0
    else Total(order[..|order| - 1], groups) + if order[|order| - 1] in groups then |groups[order[|order| - 1]]| else 0
  }

  lemma {:induction false} TotalUpdate(order: seq<int>, groups: map<int, seq<nat>>, c: int, g: seq<nat>)
    requires Distinct(order) && c in groups && |g| == |groups[c]| + 1
    ensures Total(order, groups[c := g]) == Total(order, groups) + if c in order then 1 else 0
  {
    if order != [] {
      var rest, last := order[..|order| - 1], order[|order| - 1];
      assert order == rest + [last];
      TotalUpdate(rest, groups, c, g);
    }
  }

  lemma {:induction false} TotalUnused(order: seq<int>, groups: map<int, seq<nat>>, c: int, g: seq<nat>)
    requires c !in order
    ensures Total(order, groups[c := g]) == Total(order, groups)
  {
    if order != [] {
      TotalUnused(order[..|order| - 1], groups, c, g);
    }
  }

  /** One access point more leaves the groups of other channels alone. */
  lemma GroupKept(t: NumberText, aps: seq<RadioAp>, c: int, g: seq<nat>)
    requires aps != [] && Channel(t, aps[|aps| - 1]) != Some(c)
    requires IsGroup(t, aps[..|aps| - 1], c, g)
    ensures IsGroup(t, aps, c, g)
  {
    var before := aps[..|aps| - 1];
    forall i: nat ensures i in g <==> i < |aps| && Channel(t, aps[i]) == Some(c) {
      assert i < |before| ==> aps[i] == before[i];
    }
  }

  /** Its position joins the group of its own channel. */
  lemma GroupGrown(t: NumberText, aps: seq<RadioAp>, c: int, g: seq<nat>)
    requires aps != [] && Channel(t, aps[|aps| - 1]) == Some(c)
    requires var before := aps[..|aps| - 1]; IsGroup(t, before, c, g) || (g == [] && c !in Channels(t, before))
    ensures IsGroup(t, aps, c, g + [|aps| - 1])
  {
    var before, n := aps[..|aps| - 1], |aps| - 1;
    if g == [] { NobodyOn(t, before, c); }
    assert forall k :: 0 <= k < |g| ==> g[k] in g;
    forall i: nat ensures i in g + [n] <==> i < |aps| && Channel(t, aps[i]) == Some(c) {
      if i < |before| {
        assert aps[i] == before[i];
        if Channel(t, before[i]) == Some(c) { ChannelUsed(t, before, i); }
      }
    }
  }

  /** The dictionary after setdefault and append for the access point at n. */
  function Entered(groups: map<int, seq<nat>>, c: int, n: nat): (r: map<int, seq<nat>>)
    ensures r.Keys == groups.Keys + {c}
  {
    groups[c := if c in groups then groups[c] + [n] else [n]]
  }

  /** Its keys in insertion order. */
  function EnteredOrder(order: seq<int>, groups: map<int, seq<nat>>, c: int): (r: seq<int>) {
    if c in groups then order else order + [c]
  }

  lemma GroupedNext(t: NumberText, aps: seq<RadioAp>, groups: map<int, seq<nat>>)
    requires aps != [] && Grouped(t, aps[..|aps| - 1], groups)
    ensures var n, c := |aps| - 1, Channel(t, aps[|aps| - 1]);
            if c.None? then Grouped(t, aps, groups)
            else Grouped(t, aps, Entered(groups, c.value, n))
  {
    var n, c, before := |aps| - 1, Channel(t, aps[|aps| - 1]), aps[..|aps| - 1];
    ChannelsNext(t, aps);
    forall d | d in groups && Some(d) != c ensures IsGroup(t, aps, d, groups[d]) {
      assert IsGroup(t, before, d, groups[d]);
      GroupKept(t, aps, d, groups[d]);
    }
    if c.Some? {
      var g := if c.value in groups then groups[c.value] else [];
      assert c.value in groups ==> IsGroup(t, before, c.value, g);
      GroupGrown(t, aps, c.value, g);
    }
  }

  lemma {:induction false} NobodyOn(t: NumberText, aps: seq<RadioAp>, c: int)
    requires c !in Channels(t, aps)
    ensures CountIf(OnChannel(t, c), aps) == 0
  {
    if aps != [] {
      ChannelsNext(t, aps);
      NobodyOn(t, aps[..|aps| - 1], c);
    }
  }

  /** An access point, by position, and the channel it is on. */
  datatype Place = Place(pos: nat, channel: int)

  ghost predicate IsPlace(t: NumberText, aps: seq<RadioAp>, m: Place) {
    m.pos < |aps| && Channel(t, aps[m.pos]) == Some(m.channel)
  }

  /** Channels come in the order of their first users, and the users of one channel in the order of the list. */
  ghost predicate Precedes(t: NumberText, aps: seq<RadioAp>, m: Place, n: Place) {
    && m.channel in Channels(t, aps) && n.channel in Channels(t, aps)
    && if m.channel == n.channel then m.pos < n.pos else FirstUse(t, aps, m.channel) < FirstUse(t, aps, n.channel)
  }

  ghost predicate InOrder(t: NumberText, aps: seq<RadioAp>, places: seq<Place>) {
    forall i, j :: 0 <= i < j < |places| ==> Precedes(t, aps, places[i], places[j])
  }

  ghost predicate ByFirstUse(t: NumberText, aps: seq<RadioAp>, order: seq<int>) {
    && (forall c :: c in order ==> c in Channels(t, aps))
    && forall i, j :: 0 <= i < j < |order| ==> FirstUse(t, aps, order[i]) < FirstUse(t, aps, order[j])
  }

  /** One access point more keeps the order of channels, a new one coming last. */
  lemma OrderNext(t: NumberText, aps: seq<RadioAp>, order: seq<int>, groups: map<int, seq<nat>>)
    requires aps != [] && ByFirstUse(t, aps[..|aps| - 1], order)
    requires groups.Keys == Channels(t, aps[..|aps| - 1]) && forall c :: c in order <==> c in groups
    ensures var c := Channel(t, aps[|aps| - 1]);
            ByFirstUse(t, aps, if c.None? then order else EnteredOrder(order, groups, c.value))
  {
    var before, c := aps[..|aps| - 1], Channel(t, aps[|aps| - 1]);
    ChannelsNext(t, aps);
    forall k | 0 <= k < |order| ensures FirstUse(t, aps, order[k]) == FirstUse(t, before, order[k]) < |before| {
      assert order[k] in order;
    }
    assert c.Some? && c.value !in groups ==> FirstUse(t, aps, c.value) == |before|;
  }

  /** The dictionary for these access points, with its keys in insertion order. */
  ghost predicate IsDictionary(t: NumberText, aps: seq<RadioAp>, order: seq<int>, groups: map<int, seq<nat>>) {
    && Grouped(t, aps, groups) && ByFirstUse(t, aps, order) && Distinct(order)
    && (forall c :: c in order <==> c in groups)
    && Total(order, groups) == CountIf(Counted(t), aps)
  }

  lemma TotalsNext(t: NumberText, aps: seq<RadioAp>, order: seq<int>, groups: map<int, seq<nat>>)
    requires aps != [] && Distinct(order) && forall c :: c in order <==> c in groups
    requires Total(order, groups) == CountIf(Counted(t), aps[..|aps| - 1])
    ensures var n, c := |aps| - 1, Channel(t, aps[|aps| - 1]);
            CountIf(Counted(t), aps)
            == if c.None? then Total(order, groups)
               else Total(EnteredOrder(order, groups, c.value), Entered(groups, c.value, n))
  {
    var n, c := |aps| - 1, Channel(t, aps[|aps| - 1]);
    if c.Some? {
      if c.value in groups {
        TotalUpdate(order, groups, c.value, groups[c.value] + [n]);
      } else {
        TotalUnused(order, groups, c.value, [n]);
        TotalNext(order, groups[c.value := [n]], c.value);
      }
    }
  }

  lemma KeysNext(order: seq<int>, groups: map<int, seq<nat>>, c: int, n: nat)
    requires Distinct(order) && forall d :: d in order <==> d in groups
    ensures Distinct(EnteredOrder(order, groups, c))
    ensures forall d :: d in EnteredOrder(order, groups, c) <==> d in Entered(groups, c, n)
  {
  }

  lemma DictionaryNext(t: NumberText, aps: seq<RadioAp>, order: seq<int>, groups: map<int, seq<nat>>)
    requires aps != [] && IsDictionary(t, aps[..|aps| - 1], order, groups)
    ensures var n, c := |aps| - 1, Channel(t, aps[|aps| - 1]);
            if c.None? then IsDictionary(t, aps, order, groups)
            else IsDictionary(t, aps, EnteredOrder(order, groups, c.value), Entered(groups, c.value, n))
  {
    var n, c := |aps| - 1, Channel(t, aps[|aps| - 1]);
    GroupedNext(t, aps, groups);
    OrderNext(t, aps, order, groups);
    TotalsNext(t, aps, order, groups);
    if c.Some? { KeysNext(order, groups, c.value, n); }
  }

  /** The dictionary of 5 GHz channels; order is its insertion order. */
  method GroupByChannel(t: NumberText, aps: seq<RadioAp>) returns (order: seq<int>, groups: map<int, seq<nat>>)
    ensures Grouped(t, aps, groups) && ByFirstUse(t, aps, order) && Distinct(order)
            && forall c :: c in order <==> c in groups
    ensures Total(order, groups) == CountIf(Counted(t), aps)
  {
    order, groups := [], map[];
    for i := 0 to |aps|
      invariant IsDictionary(t, aps[..i], order, groups)
    {
      assert aps[..i + 1][..i] == aps[..i];
      DictionaryNext(t, aps[..i + 1], order, groups);
      var c := Channel(t, aps[i]);
      if c.Some? {
        order, groups := EnteredOrder(order, groups, c.value), Entered(groups, c.value, i);
      }
    }
    assert aps[..|aps|] == aps;
  }

  /** The members of a group after its first are the later users of the channel. */
  lemma LaterInGroup(t: NumberText, aps: seq<RadioAp>, groups: map<int, seq<nat>>, c: int, i: nat)
    requires Grouped(t, aps, groups) && c in groups
    ensures |groups[c]| > 0
    ensures i in groups[c][1..] <==> i < |aps| && Channel(t, aps[i]) == Some(c) && IsLater(t, aps, i)
  {
    var g := groups[c];
    assert IsGroup(t, aps, c, g);
    var first := g[0];
    if i in g[1..] {
      var k :| 1 <= k < |g| && g[k] == i;
      assert g[0] in g && g[k] in g && g[0] < g[k];
      assert SameChannel(t, aps, i, first);
    }
    if i < |aps| && Channel(t, aps[i]) == Some(c) && IsLater(t, aps, i) {
      var j: nat :| j < i && SameChannel(t, aps, i, j);
      assert j in g && i in g;
      var k :| 0 <= k < |g| && g[k] == i;
      assert g[1..][k - 1] == i;
    }
  }

  /** An access point that shares its channel. */
  ghost predicate IsConflict(t: NumberText, aps: seq<RadioAp>, m: Place) {
    IsPlace(t, aps, m) && m.channel in Overlapping(t, aps)
  }

  /** An access point that is told to leave its channel. */
  ghost predicate IsMove(t: NumberText, aps: seq<RadioAp>, m: Place) {
    IsPlace(t, aps, m) && IsLater(t, aps, m.pos)
  }

  function Places(positions: seq<nat>, channel: int): (places: seq<Place>)
    ensures |places| == |positions|
  {
    seq(|positions|, k requires 0 <= k < |positions| => Place(positions[k], channel))
  }

  lemma PlacesMembers(positions: seq<nat>, channel: int)
    ensures forall m :: m in Places(positions, channel) <==> m.pos in positions && m.channel == channel
  {
    forall m ensures m in Places(positions, channel) <==> m.pos in positions && m.channel == channel {
      if m.pos in positions && m.channel == channel {
        var k :| 0 <= k < |positions| && positions[k] == m.pos;
        assert Places(positions, channel)[k] == m;
      }
    }
  }

  /** What is known of the two lists once these channels have been looked at. */
  ghost predicate Listed(t: NumberText, aps: seq<RadioAp>, channels: seq<int>, conflicts: seq<Place>,
                         moves: seq<Place>) {
    && InOrder(t, aps, conflicts) && (forall m :: m in conflicts <==> m.channel in channels && IsConflict(t, aps, m))
    && InOrder(t, aps, moves) && (forall m :: m in moves <==> m.channel in channels && IsMove(t, aps, m))
  }

  ghost predicate CountsFor(t: NumberText, aps: seq<RadioAp>, channels: seq<int>, groups: map<int, seq<nat>>,
                            moves: nat, overlaps: nat) {
    && moves + |channels| == Total(channels, groups)
    && overlaps == |Among(Overlapping(t, aps), channels)|
  }

  lemma InOrderNext(t: NumberText, aps: seq<RadioAp>, order: seq<int>, k: nat, places: seq<Place>, g: seq<nat>)
    requires ByFirstUse(t, aps, order) && k < |order| && InOrder(t, aps, places) && Rising(g)
    requires forall m :: m in places ==> m.channel in order[..k]
    ensures InOrder(t, aps, places + Places(g, order[k]))
  {
    var all := places + Places(g, order[k]);
    assert order[k] in order;
    forall i, j | 0 <= i < j < |all| ensures Precedes(t, aps, all[i], all[j]) {
      if i < |places| && j >= |places| {
        assert places[i] in places;
        var a :| 0 <= a < k && order[a] == places[i].channel;
        assert FirstUse(t, aps, order[a]) < FirstUse(t, aps, order[k]);
      }
    }
  }

  /** The members of the group at k are in conflict when there is more than one, and all but the first are to move. */
  lemma ListedNext(t: NumberText, aps: seq<RadioAp>, order: seq<int>, groups: map<int, seq<nat>>, k: nat,
                   conflicts: seq<Place>, moves: seq<Place>)
    requires Grouped(t, aps, groups) && ByFirstUse(t, aps, order) && k < |order| && order[k] in groups
    requires Listed(t, aps, order[..k], conflicts, moves)
    ensures var c, g := order[k], groups[order[k]];
            if |g| > 1 then Listed(t, aps, order[..k + 1], conflicts + Places(g, c), moves + Places(g[1..], c))
            else Listed(t, aps, order[..k + 1], conflicts, moves)
  {
    var c, g := order[k], groups[order[k]];
    assert IsGroup(t, aps, c, g);
    assert order[..k + 1] == order[..k] + [c];
    assert |g| > 1 <==> c in Overlapping(t, aps);
    forall m: Place ensures m.channel == c ==> (IsMove(t, aps, m) <==> m.pos in g[1..]) {
      LaterInGroup(t, aps, groups, c, m.pos);
    }
    if |g| > 1 {
      PlacesMembers(g, c);
      PlacesMembers(g[1..], c);
      InOrderNext(t, aps, order, k, conflicts, g);
      InOrderNext(t, aps, order, k, moves, g[1..]);
    } else {
      assert g[1..] == [];
    }
  }

  lemma CountsNext(t: NumberText, aps: seq<RadioAp>, order: seq<int>, groups: map<int, seq<nat>>, k: nat, moves: nat,
                   overlaps: nat)
    requires Grouped(t, aps, groups) && Distinct(order) && k < |order| && order[k] in groups
    requires CountsFor(t, aps, order[..k], groups, moves, overlaps)
    ensures var g := groups[order[k]];
            && |g| > 0
            && CountsFor(t, aps, order[..k + 1], groups, moves + |g| - 1, if |g| > 1 then overlaps + 1 else overlaps)
  {
    var c, g, before := order[k], groups[order[k]], order[..k];
    assert IsGroup(t, aps, c, g);
    assert order[..k + 1] == before + [c];
    assert c !in before;
    TotalNext(before, groups, c);
    AmongNext(Overlapping(t, aps), before, c);
    assert |g| > 1 <==> c in Overlapping(t, aps);
  }

  /** The loop over the channels: the issues and the suggestions, and how many channels overlap. */
  method SuggestMoves(t: NumberText, ghost aps: seq<RadioAp>, order: seq<int>, groups: map<int, seq<nat>>)
    returns (conflicts: seq<Place>, moves: seq<Place>, to: int, overlaps: nat)
    requires Grouped(t, aps, groups) && ByFirstUse(t, aps, order) && Distinct(order)
            && forall c :: c in order <==> c in groups
    ensures InOrder(t, aps, conflicts) && forall m :: m in conflicts <==> IsConflict(t, aps, m)
    ensures InOrder(t, aps, moves) && forall m :: m in moves <==> IsMove(t, aps, m)
    ensures to == Suggested(Channels(t, aps))
    ensures |moves| + |order| == Total(order, groups)
    ensures overlaps == |Overlapping(t, aps)|
  {
    to := Suggested(groups.Keys);
    conflicts, moves, overlaps := [], [], 0;
    for k := 0 to |order|
      invariant Listed(t, aps, order[..k], conflicts, moves)
      invariant CountsFor(t, aps, order[..k], groups, |moves|, overlaps)
    {
      var chan := order[k];
      var group := groups[chan];
      ListedNext(t, aps, order, groups, k, conflicts, moves);
      CountsNext(t, aps, order, groups, k, |moves|, overlaps);
      if |group| > 1 {
        overlaps := overlaps + 1;
        conflicts := conflicts + Places(group, chan);
        moves := moves + Places(group[1..], chan);
      }
    }
    assert order[..|order|] == order;
    assert Among(Overlapping(t, aps), order) == Overlapping(t, aps);
  }

  ghost function Among(overlapping: set<int>, channels: seq<int>): (among: set<int>) {
    set c | c in channels && c in overlapping
  }

  lemma TotalNext(channels: seq<int>, groups: map<int, seq<nat>>, c: int)
    requires c in groups
    ensures Total(channels + [c], groups) == Total(channels, groups) + |groups[c]|
  {
    assert (channels + [c])[..|channels|] == channels;
  }

  lemma AmongNext(overlapping: set<int>, channels: seq<int>, c: int)
    requires c !in channels
    ensures |Among(overlapping, channels + [c])| == |Among(overlapping, channels)| + if c in overlapping then 1 else 0
  {
    assert Among(overlapping, channels + [c]) == Among(overlapping, channels) + if c in overlapping then {c} else {};
  }

  // ----- the whole analysis

  /**
   The issues are one for each position in loud, one for each conflict and, if poor is not 0, one about the clients;
   the suggestions are one for each position in loud and, with the channel to, one for each move.
   */
  method Analyse(t: NumberText, aps: seq<RadioAp>, clients: seq<Client>)
    returns (score: int, loud: seq<nat>, conflicts: seq<Place>, moves: seq<Place>, to: int, poor: nat)
    ensures score == Score(t, aps, clients) && 30 <= score <= 100
    ensures Rising(loud) && forall i: nat :: i in loud <==> i < |aps| && HighPower(t, aps[i])
    ensures InOrder(t, aps, conflicts) && forall m :: m in conflicts <==> IsConflict(t, aps, m)
    ensures InOrder(t, aps, moves) && forall m :: m in moves <==> IsMove(t, aps, m)
    ensures to == Suggested(Channels(t, aps))
    ensures |loud| == CountIf((ap: RadioAp) => HighPower(t, ap), aps)
    ensures |moves| + |Channels(t, aps)| == CountIf(Counted(t), aps)
    ensures poor == CountIf((c: Client) => PoorClient(t, c), clients)
  {
    score := 100;
    var highPower;
    loud, highPower := FindLoud(t, aps);
    if highPower > 0 {
      score := score - Min(highPower * 2, 20);
    }

    var order, groups := GroupByChannel(t, aps);
    var overlaps;
    conflicts, moves, to, overlaps := SuggestMoves(t, aps, order, groups);
    if overlaps > 0 {
      score := score - Min(overlaps * 8, 30);
    }

    poor := CountPoor(t, clients);
    if poor > 0 {
      score := score - Min(poor * 3, 20);
    }
    score := if score > 100 then 100 else score;
    score := if score < 0 then 0 else score;

    DistinctSize(order, Channels(t, aps));
  }

  method FindLoud(t: NumberText, aps: seq<RadioAp>) returns (loud: seq<nat>, highPower: nat)
    ensures Rising(loud) && forall i: nat :: i in loud <==> i < |aps| && HighPower(t, aps[i])
    ensures highPower == |loud| == CountIf((ap: RadioAp) => HighPower(t, ap), aps)
  {
    loud, highPower := [], 0;
    for i := 0 to |aps|
      invariant highPower == |loud| == CountIf((ap: RadioAp) => HighPower(t, ap), aps[..i])
      invariant Rising(loud) && forall k: nat :: k in loud <==> k < i && HighPower(t, aps[k])
    {
      assert aps[..i + 1][..i] == aps[..i];
      if HighPower(t, aps[i]) {
        assert forall k :: 0 <= k < |loud| ==> loud[k] in loud;
        highPower := highPower + 1;
        loud := loud + [i];
      }
    }
    assert aps[..|aps|] == aps;
  }

  method CountPoor(t: NumberText, clients: seq<Client>) returns (poor: nat)
    ensures poor == CountIf((c: Client) => PoorClient(t, c), clients)
  {
    poor := 0;
    for i := 0 to |clients|
      invariant poor == CountIf((c: Client) => PoorClient(t, c), clients[..i])
    {
      assert clients[..i + 1][..i] == clients[..i];
      if PoorClient(t, clients[i]) {
        poor := poor + 1;
      }
    }
    assert clients[..|clients|] == clients;
  }
}
