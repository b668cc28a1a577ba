/** The window of recent segments and the playlist made from it (RFC 8216, section 4.3.3). */
module Playlists {
  import opened Bytes

  datatype Item = Item(name: string, seqNum: int, duration: int, data: seq<byte>)

  const MAX_CACHED := 5
  const MAX_LISTED := 3

  function Last<T>(s: seq<T>, k: nat): (r: seq<T>)
    ensures |r| <= k && |r| <= |s|
  { if |s| <= k then s else s[|s| - k..] }

  // ---- names ----

  function TrimSuffix(s: string, suffix: string): string
  { if |suffix| <= |s| && s[|s| - |suffix|..] == suffix then s[..|s| - |suffix|] else s }

  /** The file name extension: from the last dot of the last path element. */
  function Ext(s: string): (e: string)
    ensures |e| <= |s| && s[|s| - |e|..] == e
  { ExtFrom(s, |s|) }

  function ExtFrom(s: string, i: nat): (e: string)
    requires i <= |s|
    ensures |e| <= |s| && s[|s| - |e|..] == e
    decreases i
  {
    if i == 0 || s[i - 1] == '/' then ""
    else if s[i - 1] == '.' then s[i - 1..]
    else ExtFrom(s, i - 1)
  }

  lemma TsName(name: string)
    ensures Ext(name + ".ts") == ".ts" && TrimSuffix(name + ".ts", ".ts") == name
  {
    var s := name + ".ts";
    assert s[|s| - 1] == 's' && s[|s| - 2] == 't' && s[|s| - 3] == '.';
    assert s[|name|..] == ".ts" && s[..|name|] == name;
    ExtPlain(s, |s|);
    ExtPlain(s, |s| - 1);
  }

  lemma ExtPlain(s: string, i: nat)
    requires 0 < i <= |s| && s[i - 1] != '/' && s[i - 1] != '.'
    ensures ExtFrom(s, i) == ExtFrom(s, i - 1)
  {}

  // ---- the window ----

  function Stored(i: Item): Item
  { i.(name := TrimSuffix(i.name, ".ts")) }

  function StoredAll(items: seq<Item>): (r: seq<Item>)
    ensures |r| == |items| && forall i | 0 <= i < |items| :: r[i] == Stored(items[i])
  { seq(|items|, i requires 0 <= i < |items| => Stored(items[i])) }

  function FirstNamed(items: seq<Item>, name: string): Option<Item>
  { if items == [] then None else if items[0].name == name then Some(items[0]) else FirstNamed(items[1..], name) }

  /** With distinct names, each item of the window is found under its file name. */
  lemma {:induction false} FindsItem(items: seq<Item>, k: nat)
    requires k < |items| && forall i, j | 0 <= i < j < |items| :: items[i].name != items[j].name
    ensures FirstNamed(items, items[k].name) == Some(items[k])
  {
    if k > 0 { FindsItem(items[1..], k - 1); }
  }

  // ---- the playlist ----

  datatype Playlist = Playlist(targetDuration: int, mediaSequence: int, items: seq<Item>)

  function MaxDuration(items: seq<Item>): int
  {
    if items == [] then 0 else
      var m := MaxDuration(items[..|items| - 1]);
      var d := items[|items| - 1].duration;
      if d > m then d else m
  }

  lemma {:induction false} MaxDurationIs(items: seq<Item>)
    ensures var m := MaxDuration(items);
            && m >= 0 && (forall i | 0 <= i < |items| :: items[i].duration <= m)
            && (m == 0 || exists i | 0 <= i < |items| :: items[i].duration == m)
  {
    if items != [] {
      var init := items[..|items| - 1];
      MaxDurationIs(init);
      assert forall i | 0 <= i < |init| :: init[i] == items[i];
    }
  }

  lemma MaxSnoc(items: seq<Item>, i: nat)
    requires i < |items|
    ensures var m := MaxDuration(items[..i]);
            MaxDuration(items[..i + 1]) == if items[i].duration > m then items[i].duration else m
  { assert items[..i + 1][..i] == items[..i]; }

  lemma NumberStep(items: seq<Item>, i: nat)
    requires i < |items|
    ensures FirstNumber(items[i..]) == if items[i].seqNum != 0 then items[i].seqNum else FirstNumber(items[i + 1..])
  { assert items[i..][1..] == items[i + 1..]; }

  /** The number of the first item that has one. */
  function FirstNumber(items: seq<Item>): int
  { if items == [] then 0 else if items[0].seqNum != 0 then items[0].seqNum else FirstNumber(items[1..]) }

  function PlaylistOf(window: seq<Item>): Playlist
  {
    var all := Last(window, MAX_LISTED);
    Playlist(MaxDuration(all) / 1000 + 1, FirstNumber(all), all)
  }

  predicate Numbered(history: seq<Item>)
  { forall i | 0 <= i < |history| :: history[i].seqNum == i + 1 }

  lemma ListedItems(history: seq<Item>)
    ensures Last(Last(history, MAX_CACHED), MAX_LISTED) == Last(history, MAX_LISTED)
  {}

  /** The number of the first listed item. */
  function MediaSequence(n: nat): nat
  { if n == 0 then 0 else if n <= MAX_LISTED then 1 else n - 2 }

  lemma ListedNumbers(history: seq<Item>)
    requires Numbered(history)
    ensures
      var items := Last(history, MAX_LISTED);
      && FirstNumber(items) == MediaSequence(|history|)
      && forall i | 0 <= i < |items| :: items[i].seqNum == FirstNumber(items) + i
  {
    var items := Last(history, MAX_LISTED);
    assert items != [] ==> items[0].seqNum == MediaSequence(|history|);
  }

  /** The target duration is above every duration in whole seconds, and a second less is not. */
  lemma TargetExact(items: seq<Item>)
    ensures
      var target := MaxDuration(items) / 1000 + 1;
      && (forall i | 0 <= i < |items| :: (items[i].duration + 500) / 1000 <= target)
      && (target == 1 || exists i | 0 <= i < |items| :: items[i].duration >= (target - 1) * 1000)
  {
    MaxDurationIs(items);
    var m := MaxDuration(items);
    hide MaxDuration;
    forall i | 0 <= i < |items| ensures (items[i].duration + 500) / 1000 <= m / 1000 + 1 {
      Rounded(items[i].duration, m);
    }
    if m != 0 {
      var i :| 0 <= i < |items| && items[i].duration == m;
      assert items[i].duration >= m / 1000 * 1000;
    }
  }

  lemma Rounded(d: int, m: int)
    requires 0 <= m && d <= m
    ensures (d + 500) / 1000 <= m / 1000 + 1
  {}

  /**
   A playlist of numbered pushes lists the last three of them under consecutive numbers from its media
   sequence, and its target duration is the least that is above every listed duration in whole seconds.
   */
  lemma PlaylistExact(history: seq<Item>)
    requires Numbered(history)
    ensures
      var p := PlaylistOf(Last(history, MAX_CACHED));
      var n := |history|;
      && |p.items| == (if n < 3 then n else 3) && p.items == history[n - |p.items|..]
      && p.mediaSequence == (if n == 0 then 0 else if n <= 3 then 1 else n - 2)
      && (forall i | 0 <= i < |p.items| :: p.items[i].seqNum == p.mediaSequence + i)
      && (forall i | 0 <= i < |p.items| :: (p.items[i].duration + 500) / 1000 <= p.targetDuration)
      && (p.targetDuration == 1 ||
          exists i | 0 <= i < |p.items| :: p.items[i].duration >= (p.targetDuration - 1) * 1000)
  {
    assert Last(history, 3) == if |history| < 3 then history[0..] else history[|history| - 3..];
    hide Last, FirstNumber, MaxDuration, Numbered;
    ListedItems(history);
    ListedNumbers(history);
    TargetExact(Last(history, MAX_LISTED));
  }

  class TsCache {
    var max: nat
    var l: seq<Item>
    ghost var history: seq<Item>

    /** The window is the last five pushes. */
    ghost predicate Valid()
      reads this
    { max == MAX_CACHED && l == Last(StoredAll(history), MAX_CACHED) }

    constructor ()
      ensures Valid() && history == []
    { max, l, history := MAX_CACHED, [], []; }

    method PushItem(item: Item)
      requires Valid()
      modifies this
      ensures Valid() && history == old(history) + [item]
      ensures l == (if |old(l)| == 5 then old(l)[1..] else old(l)) + [Stored(item)]
    {
      history := history + [item];
      assert StoredAll(history) == StoredAll(old(history)) + [Stored(item)];
      if |l| == max {
        l := l[1..];
      }
      l := l + [item.(name := TrimSuffix(item.name, ".ts"))];
    }

    method GenM3U8File() returns (p: Playlist)
      requires Valid()
      ensures p == PlaylistOf(Last(StoredAll(history), MAX_CACHED))
    {
      var mediaSeq, maxDuration := 0, 0;
      var all := l;
      if |all| > MAX_LISTED { all := all[|all| - MAX_LISTED..]; }
      assert all == Last(l, MAX_LISTED) && all[..0] == [] && all[0..] == all;
      assert MaxDuration([]) == 0 && FirstNumber([]) == 0;
      hide Last, StoredAll, MaxDuration, FirstNumber;
      for i := 0 to |all|
        invariant maxDuration == MaxDuration(all[..i])
        invariant if mediaSeq == 0 then FirstNumber(all) == FirstNumber(all[i..]) else FirstNumber(all) == mediaSeq
      {
        MaxSnoc(all, i);
        NumberStep(all, i);
        if all[i].duration > maxDuration { maxDuration := all[i].duration; }
        if mediaSeq == 0 { mediaSeq := all[i].seqNum; }
      }
      assert all[..|all|] == all && all[|all|..] == [];
      p := Playlist(maxDuration / 1000 + 1, mediaSeq, all);
    }

    method GetItem(tsName: string) returns (r: Option<Item>)
      requires Valid()
      ensures r == FirstNamed(Last(StoredAll(history), MAX_CACHED), TrimSuffix(tsName, Ext(tsName)))
    {
      var name := TrimSuffix(tsName, Ext(tsName));
      for i := 0 to |l|
        invariant FirstNamed(l, name) == FirstNamed(l[i..], name)
      {
        assert l[i..][1..] == l[i + 1..];
        if l[i].name == name { return Some(l[i]); }
      }
      r := None;
    }
  }
}
