/** The 24 hardware voices that a MIDI player shares among its notes: reuse,
    free and steal by age. */
module VoicePool {
  import opened Bits
  import opened FiniteSets
  import opened Wrappers

  const SPU_CHANNEL_COUNT := 24
  const FREE: byte := 0xFF

  datatype Key = Key(ch: byte, note: byte)

  /** One voice: when it was last started, and for which channel and note. */
  datatype Slave = Slave(lastTouched: word32, ch: byte, note: byte)

  // ----- what the pool is for: the notes held, oldest first

  function Remove<T(==)>(s: seq<T>, x: T): (r: seq<T>)
    ensures x !in r && |r| <= |s|
    ensures forall y :: y in r ==> y in s
  {
    if s == [] then []
    else
      var r := Remove(s[..|s| - 1], x);
      if s[|s| - 1] == x then r else r + [s[|s| - 1]]
  }

  /** A note on makes its note the youngest; if there is no room the oldest
      goes. */
  function Press(held: seq<Key>, k: Key): seq<Key> {
    var rest := Remove(held, k);
    (if |rest| >= SPU_CHANNEL_COUNT then rest[1..] else rest) + [k]
  }

  function Release(held: seq<Key>, k: Key): seq<Key> {
    Remove(held, k)
  }

  /** A MIDI event as it is read: status, note and velocity. */
  datatype Event = NoteOn(k: Key, velocity: byte) | NoteOff(k: Key, velocity: byte)

  /** A note on with velocity zero is a note off. */
  predicate Sounds(e: Event) {
    e.NoteOn? && e.velocity != 0
  }

  function Heard(held: seq<Key>, events: seq<Event>): seq<Key> {
    if events == [] then held
    else
      var before, e := Heard(held, events[..|events| - 1]), events[|events| - 1];
      if Sounds(e) then Press(before, e.k) else Release(before, e.k)
  }

  // ----- its promises, over every run

  predicate Distinct<T(==)>(s: seq<T>) {
    forall i, j :: 0 <= i < j < |s| ==> s[i] != s[j]
  }

  lemma {:induction false} RemoveDistinct<T>(s: seq<T>, x: T)
    requires Distinct(s)
    ensures Distinct(Remove(s, x))
    ensures x in s ==> |Remove(s, x)| == |s| - 1
    ensures x !in s ==> Remove(s, x) == s
    ensures forall y :: y in s && y != x ==> y in Remove(s, x)
  {
    if s != [] {
      var n := |s| - 1;
      RemoveDistinct(s[..n], x);
      assert s == s[..n] + [s[n]];
      if s[n] == x { assert x !in s[..n]; }
      forall i, j | 0 <= i < j < |Remove(s, x)|
        ensures Remove(s, x)[i] != Remove(s, x)[j]
      {
        if s[n] != x && j == |Remove(s[..n], x)| {
          assert Remove(s[..n], x)[i] in s[..n];
        }
      }
    }
  }

  /** No run holds a note twice, or more notes than there are voices. */
  lemma {:induction false} NeverTooMany(events: seq<Event>)
    ensures Distinct(Heard([], events)) && |Heard([], events)| <= SPU_CHANNEL_COUNT
  {
    if events != [] {
      var before := Heard([], events[..|events| - 1]);
      NeverTooMany(events[..|events| - 1]);
      RemoveDistinct(before, events[|events| - 1].k);
    }
  }

  /** The notes that are on, were there voices for all of them. */
  function Outstanding(events: seq<Event>): seq<Key> {
    if events == [] then []
    else
      var before, e := Outstanding(events[..|events| - 1]), events[|events| - 1];
      if Sounds(e) then Remove(before, e.k) + [e.k] else Remove(before, e.k)
  }

  /** As long as no more than 24 notes are on at a time, every one of them is
      heard: voices are stolen only when there are not enough. */
  lemma {:induction false} NothingStolen(events: seq<Event>)
    requires forall n :: 0 <= n <= |events| ==> |Outstanding(events[..n])| <= SPU_CHANNEL_COUNT
    ensures Heard([], events) == Outstanding(events)
  {
    if events != [] {
      var n := |events| - 1;
      forall i | 0 <= i <= n
        ensures |Outstanding(events[..n][..i])| <= SPU_CHANNEL_COUNT
      {
        assert events[..n][..i] == events[..i];
      }
      NothingStolen(events[..n]);
      assert events[..|events|] == events;
      assert |Outstanding(events)| <= SPU_CHANNEL_COUNT;
    }
  }

  /** What one more event does: a note on that is not silent puts its note last
      and keeps the others, but for the first of 24 when the note is new; a
      note off, and a silent note on, removes its note and keeps the others. */
  lemma EventMeans(held: seq<Key>, events: seq<Event>, k: Key, velocity: byte)
    requires Distinct(Heard(held, events)) && |Heard(held, events)| <= 24
    ensures var before := Heard(held, events);
      var off, silent := Heard(held, events + [NoteOff(k, velocity)]), Heard(held, events + [NoteOn(k, 0)]);
      && off == silent && k !in off
      && (forall l :: l in off <==> l in before && l != k)
    ensures velocity != 0 ==>
      var before, on := Heard(held, events), Heard(held, events + [NoteOn(k, velocity)]);
      var full := |before| == 24 && k !in before;
      && on != [] && on[|on| - 1] == k
      && (forall l :: l in on <==> l == k || (l in before && !(full && l == before[0])))
  {
    hide Heard, Remove, Distinct;
    var before := Heard(held, events);
    EventLast(held, events, NoteOff(k, velocity));
    EventLast(held, events, NoteOn(k, velocity));
    EventLast(held, events, NoteOn(k, 0));
    RemoveDistinct(before, k);
    if |before| == 24 && k !in before { FirstGone(before); }
  }

  lemma FirstGone(s: seq<Key>)
    requires Distinct(s) && s != []
    ensures forall l :: l in s[1..] <==> l in s && l != s[0]
  {
    assert s == [s[0]] + s[1..];
  }

  lemma EventLast(held: seq<Key>, events: seq<Event>, e: Event)
    ensures Heard(held, events + [e])
      == if Sounds(e) then Press(Heard(held, events), e.k) else Release(Heard(held, events), e.k)
  {
    assert (events + [e])[..|events|] == events;
  }

  // ----- the voices behind it

  /** Stamps rise along a list of voices. */
  predicate Rising(vs: seq<Slave>, order: seq<nat>) {
    && (forall p :: 0 <= p < |order| ==> order[p] < |vs|)
    && (forall p, q :: 0 <= p < q < |order| ==> vs[order[p]].lastTouched < vs[order[q]].lastTouched)
  }

  /** The voices in `order` are the busy ones, longest untouched first; no two
      voices that have been used have the same stamp. */
  predicate Ordered(vs: seq<Slave>, counter: word32, order: seq<nat>) {
    && |vs| == SPU_CHANNEL_COUNT && Rising(vs, order)
    && (forall i :: 0 <= i < |vs| ==> (vs[i].ch != FREE <==> i in order))
    && (forall i :: 0 <= i < |vs| ==> vs[i].lastTouched <= counter)
    && (forall i :: 0 <= i < |vs| && vs[i].ch != FREE ==> vs[i].lastTouched > 0)
    && (forall i, j :: 0 <= i < j < |vs| && vs[i].lastTouched == vs[j].lastTouched ==> vs[i].lastTouched == 0)
  }

  function KeyOf(v: Slave): Key {
    Key(v.ch, v.note)
  }

  /** The notes of the voices in `order`. */
  function Keys(vs: seq<Slave>, order: seq<nat>): (ks: seq<Key>)
    requires forall p :: 0 <= p < |order| ==> order[p] < |vs|
    ensures |ks| == |order|
  {
    seq(|order|, p requires 0 <= p < |order| => KeyOf(vs[order[p]]))
  }

  lemma RisingDistinct(vs: seq<Slave>, order: seq<nat>)
    requires Rising(vs, order)
    ensures Distinct(order)
  {}

  lemma {:induction false} RemoveRising(vs: seq<Slave>, order: seq<nat>, x: nat)
    requires Rising(vs, order)
    ensures Rising(vs, Remove(order, x))
  {
    if order != [] {
      var n := |order| - 1;
      RemoveRising(vs, order[..n], x);
      var r := Remove(order[..n], x);
      forall p | 0 <= p < |r|
        ensures vs[r[p]].lastTouched < vs[order[n]].lastTouched
      {
        assert r[p] in order[..n];
      }
    }
  }

  lemma {:induction false} RemoveMembers(order: seq<nat>, x: nat)
    ensures forall y :: y in Remove(order, x) <==> y in order && y != x
  {
    if order != [] {
      var n := |order| - 1;
      RemoveMembers(order[..n], x);
      assert order == order[..n] + [order[n]];
    }
  }

  /** Without a voice, the notes are those without its note. */
  lemma {:induction false} KeysRemove(vs: seq<Slave>, order: seq<nat>, x: nat)
    requires Rising(vs, order) && Distinct(Keys(vs, order)) && x in order
    ensures Rising(vs, Remove(order, x))
    ensures Keys(vs, Remove(order, x)) == Remove(Keys(vs, order), KeyOf(vs[x]))
  {
    hide Distinct, Remove;
    var n := |order| - 1;
    var init, ks := order[..n], Keys(vs, order);
    RemoveRising(vs, order, x);
    KeysSplit(vs, order);
    RisingDistinct(vs, order);
    DistinctSplit(order);
    DistinctSplit(ks);
    RemoveSplit(order, x);
    RemoveSplit(ks, KeyOf(vs[x]));
    if order[n] == x {
      RemoveDistinct(init, x);
      RemoveDistinct(ks[..n], ks[n]);
    } else {
      assert order == init + [order[n]];
      KeysRemove(vs, init, x);
      KeyWithin(vs, init, x);
      KeysAppend(vs, Remove(init, x), order[n]);
    }
  }

  lemma KeysSplit(vs: seq<Slave>, order: seq<nat>)
    requires Rising(vs, order) && order != []
    ensures var n := |order| - 1;
      Rising(vs, order[..n]) && Keys(vs, order)[..n] == Keys(vs, order[..n])
        && Keys(vs, order)[n] == KeyOf(vs[order[n]])
  {}

  lemma KeysAppend(vs: seq<Slave>, order: seq<nat>, x: nat)
    requires Rising(vs, order) && x < |vs|
    ensures forall p :: 0 <= p < |order| + 1 ==> (order + [x])[p] < |vs|
    ensures Keys(vs, order + [x]) == Keys(vs, order) + [KeyOf(vs[x])]
  {}

  lemma KeyWithin(vs: seq<Slave>, order: seq<nat>, x: nat)
    requires Rising(vs, order) && x in order
    ensures KeyOf(vs[x]) in Keys(vs, order)
  {
    var p :| 0 <= p < |order| && order[p] == x;
    assert Keys(vs, order)[p] == KeyOf(vs[x]);
  }

  lemma DistinctSplit<T>(s: seq<T>)
    requires Distinct(s) && s != []
    ensures Distinct(s[..|s| - 1]) && s[|s| - 1] !in s[..|s| - 1]
  {}

  lemma RemoveSplit<T>(s: seq<T>, x: T)
    requires s != []
    ensures var r := Remove(s[..|s| - 1], x);
      Remove(s, x) == if s[|s| - 1] == x then r else r + [s[|s| - 1]]
  {}

  /** A change to a voice that is not in the list does not show. */
  lemma KeysElsewhere(vs: seq<Slave>, order: seq<nat>, x: nat, v: Slave)
    requires Rising(vs, order) && x < |vs| && x !in order
    ensures Rising(vs[x := v], order) && Keys(vs[x := v], order) == Keys(vs, order)
  {
    assert forall p :: 0 <= p < |order| ==> order[p] in order;
  }

  /** What a pool promises about itself: no two busy voices have the same
      note. */
  predicate Sound(vs: seq<Slave>, counter: word32, order: seq<nat>) {
    Ordered(vs, counter, order) && Distinct(Keys(vs, order))
  }

  // ----- stopping and starting a voice

  lemma StopVoice(vs: seq<Slave>, counter: word32, order: seq<nat>, x: nat)
    requires Sound(vs, counter, order) && x in order
    ensures var us, rest := vs[x := vs[x].(ch := FREE)], Remove(order, x);
      && Sound(us, counter, rest)
      && Keys(us, rest) == Remove(Keys(vs, order), KeyOf(vs[x]))
  {
    hide Distinct, Remove, Keys;
    StopOrdered(vs, counter, order, x);
    KeysRemove(vs, order, x);
    RemoveMembers(order, x);
    KeysElsewhere(vs, Remove(order, x), x, vs[x].(ch := FREE));
    RemoveDistinct(Keys(vs, order), KeyOf(vs[x]));
  }

  lemma StopOrdered(vs: seq<Slave>, counter: word32, order: seq<nat>, x: nat)
    requires Ordered(vs, counter, order) && x in order && x < |vs|
    ensures Ordered(vs[x := vs[x].(ch := FREE)], counter, Remove(order, x))
  {
    hide Remove, Rising;
    RemoveMembers(order, x);
    RemoveRising(vs, order, x);
    RisingElsewhere(vs, Remove(order, x), x, vs[x].(ch := FREE));
  }

  lemma RisingElsewhere(vs: seq<Slave>, order: seq<nat>, x: nat, v: Slave)
    requires Rising(vs, order) && x < |vs| && x !in order
    ensures Rising(vs[x := v], order)
  {
    assert forall p :: 0 <= p < |order| ==> order[p] in order;
  }

  /** A free voice starts a note that no other voice has. */
  lemma StartVoice(vs: seq<Slave>, counter: word32, order: seq<nat>, x: nat, k: Key)
    requires Sound(vs, counter, order) && counter < 0xFFFF_FFFF
    requires x < SPU_CHANNEL_COUNT && x !in order && k.ch != FREE && k !in Keys(vs, order)
    ensures var us, more := vs[x := Slave(counter + 1, k.ch, k.note)], order + [x];
      && Sound(us, counter + 1, more)
      && Keys(us, more) == Keys(vs, order) + [k]
  {
    var us := vs[x := Slave(counter + 1, k.ch, k.note)];
    KeysElsewhere(vs, order, x, us[x]);
    assert Keys(us, order + [x]) == Keys(us, order) + [k];
  }

  // ----- counting the busy voices

  /** The numbers of the listed voices, from 1 on. */
  ghost function Members(s: seq<nat>): set<int> {
    set p | 0 <= p < |s| :: s[p] + 1
  }

  lemma {:induction false} MembersSize(s: seq<nat>)
    requires Distinct(s)
    ensures |Members(s)| == |s|
  {
    if s != [] {
      var n := |s| - 1;
      MembersSize(s[..n]);
      assert Members(s) == Members(s[..n]) + {s[n] + 1};
    }
  }

  predicate Busy(vs: seq<Slave>, n: nat)
    requires n <= |vs|
  {
    forall i :: 0 <= i < n ==> vs[i].ch != FREE
  }

  /** All 24 voices are busy just when 24 notes are held. */
  lemma AllBusy(vs: seq<Slave>, counter: word32, order: seq<nat>)
    requires Ordered(vs, counter, order)
    ensures |order| <= SPU_CHANNEL_COUNT
    ensures |order| == SPU_CHANNEL_COUNT <==> Busy(vs, SPU_CHANNEL_COUNT)
  {
    RisingDistinct(vs, order);
    AtMost(order, |vs|);
    if |order| == |vs| { FullMeansBusy(vs, order); }
    if Busy(vs, |vs|) { BusyMeansFull(vs, order); }
  }

  lemma AtMost(order: seq<nat>, n: nat)
    requires Distinct(order) && forall p :: 0 <= p < |order| ==> order[p] < n
    ensures |order| <= n && Members(order) <= Range(n) && |Members(order)| == |order| && |Range(n)| == n
  {
    hide Range, Distinct;
    MembersSize(order);
    RangeContents(n);
    assert forall p :: 0 <= p < |order| ==> order[p] + 1 in Range(n);
    SubsetSize(Members(order), Range(n));
  }

  lemma FullMeansBusy(vs: seq<Slave>, order: seq<nat>)
    requires Rising(vs, order) && |order| == |vs| && forall i :: 0 <= i < |vs| ==> (vs[i].ch != FREE <==> i in order)
    ensures Busy(vs, |vs|)
  {
    hide Range, Distinct;
    RisingDistinct(vs, order);
    AtMost(order, |vs|);
    RangeContents(|vs|);
    FullSubset(Members(order), Range(|vs|));
    forall i | 0 <= i < |vs|
      ensures vs[i].ch != FREE
    {
      assert i + 1 in Members(order);
    }
  }

  lemma BusyMeansFull(vs: seq<Slave>, order: seq<nat>)
    requires Rising(vs, order) && Busy(vs, |vs|) && forall i :: 0 <= i < |vs| ==> (vs[i].ch != FREE <==> i in order)
    ensures |order| >= |vs|
  {
    hide Range, Distinct;
    RisingDistinct(vs, order);
    AtMost(order, |vs|);
    RangeContents(|vs|);
    forall x | x in Range(|vs|)
      ensures x in Members(order)
    {
      var i: int := x - 1;
      assert vs[i].ch != FREE && i in order;
      var p :| 0 <= p < |order| && order[p] == i;
    }
    SubsetSize(Range(|vs|), Members(order));
  }

  // ----- the pool

  /** How a note on picks its voice: the one that has the note already, else
      the free voice untouched for longest, else the one untouched for
      longest. */
  ghost predicate Picked(vs: seq<Slave>, k: Key, x: nat)
    requires |vs| == SPU_CHANNEL_COUNT
  {
    && x < |vs|
    && (Playing(vs, k) ==> KeyOf(vs[x]) == k && forall i :: 0 <= i < x ==> KeyOf(vs[i]) != k)
    && (!Playing(vs, k) && !Busy(vs, |vs|) ==> vs[x].ch == FREE && Oldest(vs, x, false) && FirstOldest(vs, x, false))
    && (!Playing(vs, k) && Busy(vs, |vs|) ==> Oldest(vs, x, true) && FirstOldest(vs, x, true))
  }

  predicate Playing(vs: seq<Slave>, k: Key) {
    exists i :: 0 <= i < |vs| && KeyOf(vs[i]) == k
  }

  /** No voice, or no free one, was touched before voice `x`. */
  predicate Oldest(vs: seq<Slave>, x: nat, busyToo: bool)
    requires x < |vs|
  {
    forall i :: 0 <= i < |vs| && (busyToo || vs[i].ch == FREE) ==> vs[x].lastTouched <= vs[i].lastTouched
  }

  /** Of several such voices it is the first. */
  predicate FirstOldest(vs: seq<Slave>, x: nat, busyToo: bool)
    requires x < |vs|
  {
    forall i :: 0 <= i < x && (busyToo || vs[i].ch == FREE) ==> vs[x].lastTouched < vs[i].lastTouched
  }

  /** The state a note on leaves behind, on the abstract side. */
  lemma PressVoice(vs: seq<Slave>, counter: word32, order: seq<nat>, x: nat, k: Key)
    requires Sound(vs, counter, order) && counter < 0xFFFF_FFFF && k.ch != FREE
    requires Picked(vs, k, x)
    ensures var us, more := vs[x := Slave(counter + 1, k.ch, k.note)], Remove(order, x) + [x];
      Sound(us, counter + 1, more) && Keys(us, more) == Press(Keys(vs, order), k)
    ensures !Playing(vs, k) && Busy(vs, |vs|) ==> |order| == SPU_CHANNEL_COUNT && x == order[0]
  {
    hide Distinct, Oldest, Playing, Busy, Remove, Keys;
    RemoveRising(vs, order, x);
    AllBusy(vs, counter, order);
    PlayingInOrder(vs, counter, order, k);
    if Playing(vs, k) {
      ReplaceVoice(vs, counter, order, x, k);
      RemoveDistinct(Keys(vs, order), k);
    } else if !Busy(vs, |vs|) {
      FreeVoice(vs, counter, order, x, k);
    } else {
      OldestFirst(vs, counter, order, x);
      StealVoice(vs, counter, order, x, k);
    }
  }

  lemma PlayingInOrder(vs: seq<Slave>, counter: word32, order: seq<nat>, k: Key)
    requires Sound(vs, counter, order) && k.ch != FREE
    ensures Playing(vs, k) <==> k in Keys(vs, order)
  {
    if Playing(vs, k) {
      var i :| 0 <= i < |vs| && KeyOf(vs[i]) == k;
      KeyWithin(vs, order, i);
    }
    if k in Keys(vs, order) {
      var p :| 0 <= p < |order| && Keys(vs, order)[p] == k;
      assert KeyOf(vs[order[p]]) == k;
    }
  }

  /** Stopping a busy voice and starting it again. */
  lemma ReplaceVoice(vs: seq<Slave>, counter: word32, order: seq<nat>, x: nat, k: Key)
    requires Sound(vs, counter, order) && counter < 0xFFFF_FFFF && k.ch != FREE
    requires x < SPU_CHANNEL_COUNT && vs[x].ch != FREE && (k in Keys(vs, order) ==> KeyOf(vs[x]) == k)
    ensures var us, more := vs[x := Slave(counter + 1, k.ch, k.note)], Remove(order, x) + [x];
      Sound(us, counter + 1, more) && Keys(us, more) == Remove(Keys(vs, order), KeyOf(vs[x])) + [k]
  {
    hide Distinct, Keys, Remove;
    RemoveRising(vs, order, x);
    StopVoice(vs, counter, order, x);
    var us := vs[x := vs[x].(ch := FREE)];
    RemoveMembers(order, x);
    RemoveKeeps(Keys(vs, order), KeyOf(vs[x]), k);
    StartVoice(us, counter, Remove(order, x), x, k);
    assert us[x := Slave(counter + 1, k.ch, k.note)] == vs[x := Slave(counter + 1, k.ch, k.note)];
  }

  lemma RemoveKeeps(s: seq<Key>, y: Key, k: Key)
    ensures k in Remove(s, y) ==> k in s && k != y
  {}

  lemma FreeVoice(vs: seq<Slave>, counter: word32, order: seq<nat>, x: nat, k: Key)
    requires Sound(vs, counter, order) && counter < 0xFFFF_FFFF && k.ch != FREE
    requires x < SPU_CHANNEL_COUNT && vs[x].ch == FREE && k !in Keys(vs, order) && |order| < SPU_CHANNEL_COUNT
    ensures var us, more := vs[x := Slave(counter + 1, k.ch, k.note)], Remove(order, x) + [x];
      Sound(us, counter + 1, more) && Keys(us, more) == Press(Keys(vs, order), k)
  {
    hide Distinct, Keys, Remove;
    RisingDistinct(vs, order);
    RemoveDistinct(order, x);
    RemoveDistinct(Keys(vs, order), k);
    StartVoice(vs, counter, order, x, k);
  }

  lemma OldestFirst(vs: seq<Slave>, counter: word32, order: seq<nat>, x: nat)
    requires Ordered(vs, counter, order) && Busy(vs, |vs|) && |order| == SPU_CHANNEL_COUNT
    requires x < |vs| && Oldest(vs, x, true)
    ensures x == order[0]
  {
    assert x in order;
    assert vs[x].lastTouched <= vs[order[0]].lastTouched;
  }

  lemma StealVoice(vs: seq<Slave>, counter: word32, order: seq<nat>, x: nat, k: Key)
    requires Sound(vs, counter, order) && counter < 0xFFFF_FFFF && k.ch != FREE
    requires |order| == SPU_CHANNEL_COUNT && x == order[0] && k !in Keys(vs, order)
    ensures var us, more := vs[x := Slave(counter + 1, k.ch, k.note)], Remove(order, x) + [x];
      Sound(us, counter + 1, more) && Keys(us, more) == Press(Keys(vs, order), k)
  {
    hide Distinct, Keys, Remove;
    FirstKey(vs, order);
    assert x in order;
    ReplaceVoice(vs, counter, order, x, k);
    RemoveDistinct(Keys(vs, order), k);
    RemoveFirst(Keys(vs, order));
  }

  lemma FirstKey(vs: seq<Slave>, order: seq<nat>)
    requires Rising(vs, order) && order != []
    ensures Keys(vs, order)[0] == KeyOf(vs[order[0]])
  {}

  lemma {:induction false} RemoveFirst(s: seq<Key>)
    requires s != [] && Distinct(s)
    ensures Remove(s, s[0]) == s[1..]
  {
    if |s| > 1 {
      RemoveFirst(s[..|s| - 1]);
      assert s[1..] == s[..|s| - 1][1..] + [s[|s| - 1]];
    }
  }

  // ----- what the hardware is told

  /** The calls `orelei_stop_note` and `f_play_note`. */
  datatype Command = Stop(voice: nat) | Start(voice: nat, k: Key, velocity: byte)

  /** What a voice plays after a run of commands. */
  function Plays(commands: seq<Command>, i: nat): Option<Key> {
    if commands == [] then None
    else
      var c := commands[|commands| - 1];
      if c.voice != i then Plays(commands[..|commands| - 1], i) else if c.Stop? then None else Some(c.k)
  }

  /** Every voice plays what the pool has it down for. */
  predicate Mirrors(commands: seq<Command>, vs: seq<Slave>) {
    forall i :: 0 <= i < |vs| ==> MirrorsAt(commands, vs, i)
  }

  predicate MirrorsAt(commands: seq<Command>, vs: seq<Slave>, i: nat)
    requires i < |vs|
  {
    Plays(commands, i) == if vs[i].ch == FREE then None else Some(KeyOf(vs[i]))
  }

  lemma CommandMirrors(commands: seq<Command>, vs: seq<Slave>, x: nat, c: Command, v: Slave)
    requires Mirrors(commands, vs) && x < |vs| && c.voice == x
    requires c == Stop(x) ==> v.ch == FREE
    requires c.Start? ==> v.ch != FREE && c.k == KeyOf(v)
    ensures Mirrors(commands + [c], vs[x := v])
  {
    var more, us := commands + [c], vs[x := v];
    assert more[..|commands|] == commands;
    forall i | 0 <= i < |us|
      ensures MirrorsAt(more, us, i)
    {
      assert MirrorsAt(commands, vs, i);
    }
  }

  /** All voices stopped. */
  function Stops(n: nat): seq<Command> {
    if n == 0 then [] else Stops(n - 1) + [Stop(n - 1)]
  }

  lemma {:induction false} StoppedMirrors(commands: seq<Command>, vs: seq<Slave>, n: nat)
    requires n <= |vs| && forall i :: 0 <= i < n ==> vs[i].ch == FREE
    ensures forall i :: 0 <= i < n ==> MirrorsAt(commands + Stops(n), vs, i)
  {
    if n > 0 {
      StoppedMirrors(commands, vs, n - 1);
      var more := commands + Stops(n);
      assert more[..|more| - 1] == commands + Stops(n - 1) && more[|more| - 1] == Stop(n - 1);
      forall i | 0 <= i < n
        ensures MirrorsAt(more, vs, i)
      {
        if i < n - 1 { assert MirrorsAt(commands + Stops(n - 1), vs, i); }
      }
    }
  }

  class Pool {
    const slaves: array<Slave>
    var touchCounter: word32
    var commands: seq<Command>
    ghost var order: seq<nat>

    ghost predicate Valid()
      reads this, slaves
    {
      Sound(slaves[..], touchCounter, order)
    }

    /** The notes held, oldest first. */
    ghost function Held(): seq<Key>
      requires Valid()
      reads this, slaves
    {
      Keys(slaves[..], order)
    }

    constructor ()
      ensures fresh(slaves) && Valid() && Held() == [] && touchCounter == 0 && Mirrors(commands, slaves[..])
    {
      slaves := new Slave[SPU_CHANNEL_COUNT](_ => Slave(0, FREE, 0));
      touchCounter := 0;
      commands := [];
      order := [];
    }

    /** `orelei_midi_reset`, as far as voices go. */
    method Reset()
      requires slaves.Length == SPU_CHANNEL_COUNT
      modifies this, slaves
      ensures Valid() && Held() == [] && touchCounter == 0 && Mirrors(commands, slaves[..])
    {
      hide Sound, Keys, Plays, Stops;
      NoStops();
      touchCounter := 0;
      for i := 0 to SPU_CHANNEL_COUNT
        invariant touchCounter == 0 && commands == old(commands) + Stops(i)
        invariant forall j :: 0 <= j < i ==> slaves[j] == Slave(0, FREE, 0)
      {
        slaves[i] := Slave(0, FREE, 0);
        commands := commands + [Stop(i)];
        OneStopMore(i);
      }
      order := [];
      AllFree(slaves[..]);
      StoppedMirrors(old(commands), slaves[..], SPU_CHANNEL_COUNT);
    }

    /** The first loop of `midi_note_on` and the loop of `midi_note_off`. */
    method FindNote(k: Key) returns (x: int)
      requires slaves.Length == SPU_CHANNEL_COUNT
      ensures -1 <= x < SPU_CHANNEL_COUNT
      ensures x >= 0 ==> KeyOf(slaves[x]) == k && forall j :: 0 <= j < x ==> KeyOf(slaves[j]) != k
      ensures x < 0 ==> !Playing(slaves[..], k)
    {
      x := -1;
      for i := 0 to SPU_CHANNEL_COUNT
        invariant x == -1 && forall j :: 0 <= j < i ==> KeyOf(slaves[j]) != k
      {
        if slaves[i].ch == k.ch && slaves[i].note == k.note {
          x := i;
          return;
        }
      }
    }

    /** The second and third loops: the longest untouched voice, of the free
        ones or of all. */
    method FindOldest(busyToo: bool) returns (x: int)
      requires slaves.Length == SPU_CHANNEL_COUNT
      ensures -1 <= x < SPU_CHANNEL_COUNT
      ensures x >= 0 ==>
        && (busyToo || slaves[x].ch == FREE)
        && Oldest(slaves[..], x, busyToo) && FirstOldest(slaves[..], x, busyToo)
      ensures x < 0 ==> !busyToo && Busy(slaves[..], SPU_CHANNEL_COUNT)
    {
      x := -1;
      for i := 0 to SPU_CHANNEL_COUNT
        invariant -1 <= x < i
        invariant x >= 0 ==> busyToo || slaves[x].ch == FREE
        invariant forall j :: 0 <= j < i && (busyToo || slaves[j].ch == FREE)
                    ==> && x >= 0 && slaves[x].lastTouched <= slaves[j].lastTouched
                        && (j < x ==> slaves[x].lastTouched < slaves[j].lastTouched)
      {
        if busyToo || slaves[i].ch == FREE {
          if x == -1 || slaves[i].lastTouched < slaves[x].lastTouched {
            x := i;
          }
        }
      }
      assert x == -1 ==> slaves[0].ch != FREE && !busyToo;
    }

    /** `midi_note_on`.  The picked voice gets the note and the counter's next
        value.  Unless that wraps, the note is the youngest held, and another
        one goes only when all 24 voices are busy, the oldest. */
    method NoteOn(k: Key, velocity: byte) returns (x: nat)
      requires slaves.Length == SPU_CHANNEL_COUNT && k.ch < 16
      modifies this, slaves
      ensures touchCounter == NextTouch(old(touchCounter))
      ensures Picked(old(slaves[..]), k, x)
      ensures slaves[..] == old(slaves[..])[x := Slave(touchCounter, k.ch, k.note)]
      ensures commands == old(commands) + (if old(Playing(slaves[..], k)) then [Stop(x)] else [])
                        + [Start(x, k, velocity)]
      ensures old(Mirrors(commands, slaves[..])) ==> Mirrors(commands, slaves[..])
      ensures old(Valid()) && old(touchCounter) < 0xFFFF_FFFF ==>
        && Valid() && Held() == Press(old(Held()), k)
        && (!old(Playing(slaves[..], k)) && old(Busy(slaves[..], SPU_CHANNEL_COUNT)) ==>
              |old(Held())| == SPU_CHANNEL_COUNT && x == old(order)[0])
    {
      hide Rising, Distinct, Oldest, FirstOldest, Playing, Busy, Remove, Keys, Sound, Mirrors;
      ghost var vs, said := slaves[..], commands;
      var slaveIdx := FindNote(k);
      if slaveIdx != -1 {
        PlayingAt(vs, k, slaveIdx);
        if Mirrors(said, vs) {
          CommandMirrors(said, vs, slaveIdx, Stop(slaveIdx), vs[slaveIdx].(ch := FREE));
        }
        commands := commands + [Stop(slaveIdx)];
        slaves[slaveIdx] := slaves[slaveIdx].(ch := FREE);
      }
      if slaveIdx == -1 {
        slaveIdx := FindOldest(false);
        if slaveIdx == -1 {
          slaveIdx := FindOldest(true);
        } else {
          NotAllBusy(vs, slaveIdx);
        }
      }
      x := slaveIdx;
      if Sound(vs, touchCounter, order) && touchCounter < 0xFFFF_FFFF {
        PressVoice(vs, touchCounter, order, x, k);
      }
      if Mirrors(commands, slaves[..]) {
        CommandMirrors(commands, slaves[..], x, Start(x, k, velocity), Slave(NextTouch(touchCounter), k.ch, k.note));
      }
      slaves[x] := Slave(NextTouch(touchCounter), k.ch, k.note);
      commands := commands + [Start(x, k, velocity)];
      touchCounter := NextTouch(touchCounter);
      order := Remove(order, x) + [x];
      assert slaves[..] == vs[x := Slave(touchCounter, k.ch, k.note)];
    }

    /** `midi_note_off` */
    method NoteOff(k: Key)
      requires Valid() && k.ch < 16
      modifies this, slaves
      ensures Valid() && touchCounter == old(touchCounter)
      ensures Held() == Release(old(Held()), k)
      ensures forall i :: 0 <= i < SPU_CHANNEL_COUNT ==> KeyOf(slaves[i]) != k
      ensures old(Mirrors(commands, slaves[..])) ==> Mirrors(commands, slaves[..])
    {
      hide Rising, Distinct, Remove, Keys, Mirrors;
      ghost var vs := slaves[..];
      var found := FindNote(k);
      PlayingInOrder(vs, touchCounter, order, k);
      if found >= 0 {
        var x: nat := found;
        StopVoice(vs, touchCounter, order, x);
        OnlyOne(vs, touchCounter, order, x, k);
        if Mirrors(commands, vs) {
          CommandMirrors(commands, vs, x, Stop(x), vs[x].(ch := FREE));
        }
        slaves[x] := slaves[x].(ch := FREE);
        commands := commands + [Stop(x)];
        order := Remove(order, x);
        assert slaves[..] == vs[x := vs[x].(ch := FREE)];
      } else {
        RemoveDistinct(Held(), k);
      }
    }

    /** A run of events. */
    method Play(events: seq<Event>)
      requires Valid() && touchCounter + |events| <= 0xFFFF_FFFF
      requires forall i :: 0 <= i < |events| ==> events[i].k.ch < 16
      modifies this, slaves
      ensures Valid() && Held() == Heard(old(Held()), events)
      ensures old(Mirrors(commands, slaves[..])) ==> Mirrors(commands, slaves[..])
    {
      hide Sound, Keys, Press, Release, Mirrors;
      ghost var before := Held();
      SoundLength(slaves[..], touchCounter, order);
      for i := 0 to |events|
        invariant Valid() && touchCounter <= old(touchCounter) + i
        invariant Held() == Heard(before, events[..i])
        invariant old(Mirrors(commands, slaves[..])) ==> Mirrors(commands, slaves[..])
      {
        assert events[..i + 1][..i] == events[..i];
        match events[i]
        case NoteOff(k, _) => NoteOff(k);
        case NoteOn(k, velocity) =>
          if velocity == 0 {
            NoteOff(k);
          } else {
            var _ := NoteOn(k, velocity);
          }
      }
      assert events[..|events|] == events;
    }
  }

  lemma NoStops()
    ensures Stops(0) == []
  {}

  lemma OneStopMore(n: nat)
    ensures Stops(n + 1) == Stops(n) + [Stop(n)]
  {}

  lemma AllFree(vs: seq<Slave>)
    requires |vs| == SPU_CHANNEL_COUNT && forall i :: 0 <= i < |vs| ==> vs[i] == Slave(0, FREE, 0)
    ensures Sound(vs, 0, []) && Keys(vs, []) == []
  {}

  lemma SoundLength(vs: seq<Slave>, counter: word32, order: seq<nat>)
    requires Sound(vs, counter, order)
    ensures |vs| == SPU_CHANNEL_COUNT
  {}

  lemma PlayingAt(vs: seq<Slave>, k: Key, x: int)
    requires 0 <= x < |vs| && KeyOf(vs[x]) == k
    ensures Playing(vs, k)
  {}

  lemma NotAllBusy(vs: seq<Slave>, x: int)
    requires 0 <= x < |vs| && vs[x].ch == FREE
    ensures !Busy(vs, |vs|)
  {}

  lemma OnlyOne(vs: seq<Slave>, counter: word32, order: seq<nat>, x: nat, k: Key)
    requires Sound(vs, counter, order) && x < |vs| && KeyOf(vs[x]) == k && k.ch != FREE
    ensures forall i :: 0 <= i < |vs| && i != x ==> KeyOf(vs[i]) != k
  {
    forall i | 0 <= i < |vs| && i != x
      ensures KeyOf(vs[i]) != k
    {
      if vs[i].ch != FREE {
        var p :| 0 <= p < |order| && order[p] == i;
        var q :| 0 <= q < |order| && order[q] == x;
        assert Keys(vs, order)[p] != Keys(vs, order)[q];
      }
    }
  }

  // ----- where the counter wraps

  /** `++midi_touch_counter` on 32 bits. */
  function NextTouch(counter: word32): word32 {
    (counter + 1) % 0x1_0000_0000
  }

  /** The voice just started becomes the oldest instead of the youngest just
      when the counter wraps: this is why runs are bounded. */
  lemma WrapMakesOldest(vs: seq<Slave>, counter: word32, order: seq<nat>, x: nat, k: Key)
    requires Ordered(vs, counter, order) && x < SPU_CHANNEL_COUNT
    ensures Oldest(vs[x := Slave(NextTouch(counter), k.ch, k.note)], x, true) <==> counter == 0xFFFF_FFFF
  {
    var us := vs[x := Slave(NextTouch(counter), k.ch, k.note)];
    var y := if x == 0 then 1 else 0;
    assert us[y] == vs[y] && us[x].lastTouched == NextTouch(counter);
  }

  /** So with all voices busy the next new note takes the voice of the note
      just started, and of no other. */
  lemma WrapStealsNewest(vs: seq<Slave>, order: seq<nat>, x: nat, k: Key, l: Key, y: nat)
    requires Ordered(vs, 0xFFFF_FFFF, order) && Busy(vs, |vs|) && x < SPU_CHANNEL_COUNT && k.ch != FREE
    requires var us := vs[x := Slave(NextTouch(0xFFFF_FFFF), k.ch, k.note)];
      !Playing(us, l) && Picked(us, l, y)
    ensures y == x
  {
    var us := vs[x := Slave(NextTouch(0xFFFF_FFFF), k.ch, k.note)];
    assert Busy(us, |us|);
    assert us[y].lastTouched <= us[x].lastTouched == 0;
  }
}
