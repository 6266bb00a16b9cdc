/**
 * `get_messages_by_timeframe`: the messages of a chat that fall in a
 * trailing window of `hours` hours ending at `now`. The wall clock is read
 * by the caller and passed in as `now` (seconds since the epoch).
 */
module Timeframe {
  import opened Wrappers
  import opened Store

  /** Largest number of days a `timedelta` may hold, in either direction. */
  const MaxDeltaDays: int := 999999999

  /** `datetime.min` (0001-01-01 00:00:00) and `datetime.max` (9999-12-31 23:59:59), in seconds from 1970-01-01. */
  const MinSecond: int := -62135596800
  const MaxSecond: int := 253402300799

  /**
   * Whether `now - timedelta(hours=hours)` has a value: `timedelta`
   * normalises the hours to `hours // 24` days and refuses more than
   * `MaxDeltaDays` of them, and the difference must stay a valid
   * `datetime`; otherwise Python raises `OverflowError`.
   */
  predicate CutoffRepresentable(now: int, hours: int)
  {
    && -MaxDeltaDays <= hours / 24 <= MaxDeltaDays
    && MinSecond <= Cutoff(now, hours) <= MaxSecond
  }

  /** `now - timedelta(hours=hours)`. */
  function Cutoff(now: int, hours: int): int
  {
    now - hours * SecondsPerHour
  }

  predicate InWindow(m: Msg, now: int, hours: int)
  {
    m.timestamp >= Cutoff(now, hours)
  }

  /** `[m for m in messages if m["timestamp"] >= cutoff]`. */
  function SelectRecent(msgs: seq<Msg>, now: int, hours: int): (r: seq<Msg>)
    ensures |r| <= |msgs|
    ensures forall m :: m in r <==> m in msgs && InWindow(m, now, hours)
  {
    if msgs == [] then []
    else (if InWindow(msgs[0], now, hours) then [msgs[0]] else []) + SelectRecent(msgs[1..], now, hours)
  }

  /** The filter keeps input order: it distributes over concatenation. */
  lemma {:induction false} SelectRecentAppend(a: seq<Msg>, b: seq<Msg>, now: int, hours: int)
    ensures SelectRecent(a + b, now, hours) == SelectRecent(a, now, hours) + SelectRecent(b, now, hours)
  {
    if a == [] {
      assert a + b == b;
    } else {
      assert (a + b)[1..] == a[1..] + b;
      SelectRecentAppend(a[1..], b, now, hours);
    }
  }

  /** A window that holds every message returns the buffer unchanged. */
  lemma {:induction false} SelectRecentAll(msgs: seq<Msg>, now: int, hours: int)
    requires forall i :: 0 <= i < |msgs| ==> InWindow(msgs[i], now, hours)
    ensures SelectRecent(msgs, now, hours) == msgs
  {
    if msgs != [] {
      SelectRecentAll(msgs[1..], now, hours);
    }
  }

  /** Narrowing the result of a wider window gives the narrower window; in particular the filter is idempotent. */
  lemma {:induction false} NarrowWindow(msgs: seq<Msg>, now: int, narrow: int, wide: int)
    requires narrow <= wide
    ensures SelectRecent(SelectRecent(msgs, now, wide), now, narrow) == SelectRecent(msgs, now, narrow)
  {
    if msgs != [] {
      NarrowWindow(msgs[1..], now, narrow, wide);
      var head := if InWindow(msgs[0], now, wide) then [msgs[0]] else [];
      SelectRecentAppend(head, SelectRecent(msgs[1..], now, wide), now, narrow);
    }
  }

  /** Buffers are recorded oldest first under normal operation. */
  predicate Chronological(msgs: seq<Msg>)
  {
    forall i, j :: 0 <= i < j < |msgs| ==> msgs[i].timestamp <= msgs[j].timestamp
  }

  /** On a chronological buffer the window is a suffix of the buffer. */
  lemma {:induction false} SelectRecentSuffix(msgs: seq<Msg>, now: int, hours: int)
    requires Chronological(msgs)
    ensures var r := SelectRecent(msgs, now, hours); r == msgs[|msgs| - |r|..]
  {
    if msgs != [] {
      if InWindow(msgs[0], now, hours) {
        SelectRecentAll(msgs, now, hours);
      } else {
        SelectRecentSuffix(msgs[1..], now, hours);
      }
    }
  }

  /**
   * `get_messages_by_timeframe(chat_id, hours)`: an empty or missing buffer
   * gives `[]` before any date arithmetic; otherwise `None` stands for the
   * `OverflowError` of a cutoff outside the range of `datetime`, and a
   * cutoff in range gives the messages of the buffer inside the window.
   */
  function MessagesByTimeframe(store: MessageStore, chat: int, hours: int, now: int): (r: Option<seq<Msg>>)
    reads store
    ensures store.Messages(chat) == [] ==> r == Some([])
    ensures store.Messages(chat) != [] ==> (r.None? <==> !CutoffRepresentable(now, hours))
    ensures r.Some? ==> r.value == SelectRecent(store.Messages(chat), now, hours)
    ensures r.Some? ==> |r.value| <= |store.Messages(chat)|
    ensures r.Some? ==> forall m :: m in r.value <==> m in store.Messages(chat) && InWindow(m, now, hours)
    ensures r.Some? && Chronological(store.Messages(chat)) ==>
      r.value == store.Messages(chat)[|store.Messages(chat)| - |r.value|..]
  {
    var msgs := store.Messages(chat);
    if msgs == [] then Some([])
    else if !CutoffRepresentable(now, hours) then None
    else
      SelectRecentSuffixIfChronological(msgs, now, hours);
      Some(SelectRecent(msgs, now, hours))
  }

  /** A window of up to a century back from any present-day clock has a cutoff. */
  lemma PresentDayWindowRepresentable(now: int, hours: int)
    requires 0 <= now <= 4102444800
    requires 0 <= hours <= 876000
    ensures CutoffRepresentable(now, hours)
  {
  }

  /** Twenty million hours back from before 2100 reaches past year 1: the cutoff overflows. */
  lemma HugeWindowOverflows(now: int, hours: int)
    requires now <= 4102444800
    requires hours >= 20000000
    ensures !CutoffRepresentable(now, hours)
  {
  }

  lemma SelectRecentSuffixIfChronological(msgs: seq<Msg>, now: int, hours: int)
    ensures Chronological(msgs) ==> var r := SelectRecent(msgs, now, hours); r == msgs[|msgs| - |r|..]
  {
    if Chronological(msgs) {
      SelectRecentSuffix(msgs, now, hours);
    }
  }
}
