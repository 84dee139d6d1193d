/** The messages an engine knows in one folder, by message and by UID, with reference counts. */
module Registry {
  import opened Options

  class MailMessage {
    const uid: Option<string>
    var index: nat

    constructor (uid: Option<string>, index: nat)
      ensures this.uid == uid && this.index == index
    {
      this.uid := uid;
      this.index := index;
    }
  }

  datatype Entry = Entry(refs: int, mimeRefs: int, lost: bool)

  /** What the folder keeps about one message. */
  class MessageRef {
    const msg: MailMessage
    var refCount: int
    var mimeRefCount: int
    var lost: bool

    constructor (msg: MailMessage)
      ensures this.msg == msg && Fields() == Entry(0, 0, false)
    {
      this.msg := msg;
      refCount := 0;
      mimeRefCount := 0;
      lost := false;
    }

    ghost function Fields(): Entry
      reads this
    {
      Entry(refCount, mimeRefCount, lost)
    }
  }

  type View = map<MailMessage, Entry>

  // What the operations do to the entries

  /** The entries with this listing brought in: the others are lost, those not known before are new. */
  ghost function Marked(v: View, listed: seq<MailMessage>): View {
    map m | m in v.Keys + Members(listed) ::
      if m in v then v[m].(lost := m !in listed) else Entry(0, 0, false)
  }

  ghost function Referenced(v: View, listed: seq<MailMessage>): View {
    map m | m in v :: v[m].(refs := v[m].refs + multiset(listed)[m])
  }

  /** The entries after one release for each message listed; those released for the last time go. */
  ghost function Released(v: View, listed: seq<MailMessage>): View {
    map m | m in v && !Spent(v, listed, m) :: v[m].(refs := v[m].refs - multiset(listed)[m])
  }

  /** The entries after one release. */
  ghost function ReleasedOnce(v: View, m: MailMessage): View
    requires m in v
  {
    if v[m].refs == 1 then v - {m} else v[m := v[m].(refs := v[m].refs - 1)]
  }

  ghost predicate Spent(v: View, listed: seq<MailMessage>, m: MailMessage)
    requires m in v
  {
    m in listed && v[m].refs == multiset(listed)[m]
  }

  function Members(listed: seq<MailMessage>): set<MailMessage> {
    set m | m in listed
  }

  /** Freeing a listing undoes refreshing it, but for messages nobody held before. */
  lemma ReleaseUndoesRefresh(v: View, listed: seq<MailMessage>)
    ensures Released(Referenced(Marked(v, listed), listed), listed)
         == map m | m in v && !(m in listed && v[m].refs == 0) :: v[m].(lost := m !in listed)
  {
  }

  ghost function LostIn(v: View): set<MailMessage> {
    set m | m in v && v[m].lost
  }

  /** After a refresh the lost messages are those known before and not listed. */
  lemma LostAreAbsent(v: View, listed: seq<MailMessage>)
    ensures LostIn(Marked(v, listed)) == v.Keys - Members(listed)
  {
  }

  // Listings

  /** The UIDs in a listing. */
  function Uids(listing: seq<MailMessage>): set<string> {
    if listing == [] then {} else
      var n := |listing| - 1;
      Uids(listing[..n]) + if listing[n].uid.Some? then {listing[n].uid.value} else {}
  }

  /** How many messages of a listing have a UID. */
  function Named(listing: seq<MailMessage>): nat {
    if listing == [] then 0 else
      var n := |listing| - 1;
      Named(listing[..n]) + if listing[n].uid.Some? then 1 else 0
  }

  predicate DistinctUids(listing: seq<MailMessage>) {
    forall i, j :: 0 <= i < j < |listing| && listing[i].uid.Some? ==> listing[i].uid != listing[j].uid
  }

  lemma {:induction false} UidsAre(listing: seq<MailMessage>, u: string)
    ensures u in Uids(listing) <==> exists i :: 0 <= i < |listing| && listing[i].uid == Some(u)
  {
    if listing != [] {
      UidsAre(listing[..|listing| - 1], u);
    }
  }

  lemma DistinctSteps(before: seq<MailMessage>, last: MailMessage)
    ensures DistinctUids(before + [last])
       <==> DistinctUids(before) && (last.uid.Some? ==> last.uid.value !in Uids(before))
  {
    var listing := before + [last];
    var n := |before|;
    if last.uid.Some? {
      UidsAre(before, last.uid.value);
      if last.uid.value in Uids(before) {
        var i :| 0 <= i < n && before[i].uid == last.uid;
        assert listing[i].uid == listing[n].uid;
      }
    }
    if DistinctUids(listing) {
      forall i, j | 0 <= i < j < n && before[i].uid.Some?
        ensures before[i].uid != before[j].uid
      {
        assert listing[i].uid != listing[j].uid;
      }
    }
  }

  /** Each UID is counted once exactly when no two messages have the same. */
  lemma {:induction false} DistinctAreCounted(listing: seq<MailMessage>)
    ensures |Uids(listing)| <= Named(listing)
    ensures |Uids(listing)| == Named(listing) <==> DistinctUids(listing)
  {
    hide DistinctUids;
    if listing == [] {
      NoneAreDistinct();
    } else {
      var n := |listing| - 1;
      var before, last := listing[..n], listing[n];
      DistinctAreCounted(before);
      assert before + [last] == listing;
      DistinctSteps(before, last);
      UidsGrow(before, last);
    }
  }

  lemma NoneAreDistinct()
    ensures DistinctUids([])
  {
  }

  lemma UidsGrow(before: seq<MailMessage>, last: MailMessage)
    ensures Uids(before + [last]) == Uids(before) + if last.uid.Some? then {last.uid.value} else {}
    ensures Named(before + [last]) == Named(before) + if last.uid.Some? then 1 else 0
    ensures |Uids(before + [last])|
         == |Uids(before)| + if last.uid.Some? && last.uid.value !in Uids(before) then 1 else 0
  {
    var listing := before + [last];
    assert listing[..|before|] == before;
    if last.uid.Some? && last.uid.value in Uids(before) {
      assert Uids(listing) == Uids(before);
    }
  }

  /** The two indexes agree. */
  ghost predicate Indexed(messages: set<MailMessage>, uids: map<string, MailMessage>) {
    && (forall u :: u in uids ==> uids[u] in messages && uids[u].uid == Some(u))
    && (forall m | m in messages :: m.uid.Some? ==> m.uid.value in uids && uids[m.uid.value] == m)
  }

  lemma UidNames(messages: set<MailMessage>, uids: map<string, MailMessage>, u: string)
    requires Indexed(messages, uids) && u in uids
    ensures uids[u] in messages && uids[u].uid == Some(u)
  {
  }

  lemma AddingIndexes(messages: set<MailMessage>, uids: map<string, MailMessage>, msg: MailMessage)
    requires Indexed(messages, uids)
    ensures Indexed(messages + {msg}, if msg.uid.Some? then uids[msg.uid.value := msg] else uids)
       <==> (msg.uid.Some? && msg.uid.value in uids ==> uids[msg.uid.value] == msg)
  {
    if msg.uid.Some? && msg.uid.value in uids && uids[msg.uid.value] != msg {
      assert uids[msg.uid.value] in messages + {msg};
    }
  }

  lemma RemovingIndexes(messages: set<MailMessage>, uids: map<string, MailMessage>, msg: MailMessage)
    requires Indexed(messages, uids) && msg in messages
    ensures Indexed(messages - {msg}, if msg.uid.Some? then uids - {msg.uid.value} else uids)
  {
  }

  /** The messages of a listing that have a UID. */
  function WithUid(listing: seq<MailMessage>): seq<MailMessage> {
    if listing == [] then [] else
      var n := |listing| - 1;
      WithUid(listing[..n]) + if listing[n].uid.Some? then [listing[n]] else []
  }

  /** The messages of a listing that others took the place of. */
  function Replaced(listing: seq<MailMessage>, kept: seq<MailMessage>): set<MailMessage>
    requires |listing| == |kept|
  {
    set k | 0 <= k < |listing| && listing[k] != kept[k] :: listing[k]
  }

  /** A listing as it comes from the server: new messages, each there once. */
  ghost predicate IsNew(listing: seq<MailMessage>, messages: set<MailMessage>, freed: set<MailMessage>) {
    && (forall i :: 0 <= i < |listing| ==> listing[i] !in messages && listing[i] !in freed)
    && (forall i, j :: 0 <= i < j < |listing| ==> listing[i] != listing[j])
  }

  /** The two indexes and the messages freed. */
  datatype Index = Index(messages: set<MailMessage>, uids: map<string, MailMessage>, freed: set<MailMessage>)

  /** Each place is filled as its UID says, up to some place. */
  ghost predicate KeptSo(listing: seq<MailMessage>, kept: seq<MailMessage>, i: nat, start: Index, now: Index)
    requires i <= |listing| == |kept|
  {
    && (forall k :: i <= k < |listing| ==> kept[k] == listing[k])
    && (forall k :: 0 <= k < i ==> kept[k].uid == listing[k].uid)
    && (forall k :: 0 <= k < i && listing[k].uid.None? ==> kept[k] == listing[k])
    && (forall k :: 0 <= k < i && listing[k].uid.Some? ==>
          listing[k].uid.value in now.uids && kept[k] == now.uids[listing[k].uid.value])
    && (forall k :: 0 <= k < i ==> kept[k] in start.messages || kept[k] in listing[..i])
  }

  ghost predicate UidsSo(listing: seq<MailMessage>, kept: seq<MailMessage>, i: nat, start: Index, now: Index)
    requires i <= |listing| == |kept|
  {
    && (forall u :: u in start.uids ==> u in now.uids && now.uids[u] == start.uids[u])
    && (forall u :: u in now.uids ==> (u in Uids(listing[..i]) <==> now.uids[u] in WithUid(kept[..i])))
    && (forall u :: u in now.uids ==> u in start.uids || u in Uids(listing[..i]))
  }

  /** How far so many messages of a listing have taken the index; kept is the listing as it is now. */
  ghost predicate Matched(listing: seq<MailMessage>, kept: seq<MailMessage>, i: nat, start: Index, now: Index)
    requires i <= |listing| == |kept|
  {
    && KeptSo(listing, kept, i, start, now)
    && UidsSo(listing, kept, i, start, now)
    && now.messages == start.messages + Members(WithUid(kept[..i]))
    && now.freed == start.freed + Replaced(listing, kept)
  }

  lemma {:induction false} WithUidHas(listing: seq<MailMessage>, m: MailMessage)
    ensures m in WithUid(listing) <==> m in listing && m.uid.Some?
  {
    if listing != [] {
      WithUidHas(listing[..|listing| - 1], m);
    }
  }

  lemma WithUidGrows(before: seq<MailMessage>, last: MailMessage)
    ensures WithUid(before + [last]) == WithUid(before) + if last.uid.Some? then [last] else []
  {
    assert (before + [last])[..|before|] == before;
  }

  lemma NotYetIndexed(listing: seq<MailMessage>, kept: seq<MailMessage>, i: nat, start: Index, now: Index)
    requires i < |listing| == |kept| && Matched(listing, kept, i, start, now)
    requires IsNew(listing, start.messages, start.freed)
    ensures listing[i] !in now.messages && listing[i] !in now.freed
  {
    WithUidHas(kept[..i], listing[i]);
  }

  /** What one message of a listing does to the index, and what is kept in its place. */
  ghost predicate Matches(msg: MailMessage, kept: MailMessage, before: Index, after: Index) {
    if msg.uid.None? then kept == msg && after == before
    else if msg.uid.value in before.uids then
      kept == before.uids[msg.uid.value] && after == before.(freed := before.freed + {msg})
    else
      && kept == msg
      && after == Index(before.messages + {msg}, before.uids[msg.uid.value := msg], before.freed)
  }

  lemma KeptFurther(listing: seq<MailMessage>, kept: seq<MailMessage>, i: nat, msg: MailMessage, start: Index,
                    now: Index, after: Index)
    requires i < |listing| == |kept| && KeptSo(listing, kept, i, start, now)
    requires Indexed(now.messages, now.uids) && Matches(listing[i], msg, now, after)
    requires msg in start.messages || msg in listing[..i + 1]
    ensures KeptSo(listing, kept[i := msg], i + 1, start, after)
  {
    assert listing[..i + 1] == listing[..i] + [listing[i]];
  }

  lemma UidsFurther(listing: seq<MailMessage>, kept: seq<MailMessage>, i: nat, msg: MailMessage, start: Index,
                    now: Index, after: Index)
    requires i < |listing| == |kept| && UidsSo(listing, kept, i, start, now)
    requires Indexed(now.messages, now.uids) && Matches(listing[i], msg, now, after)
    requires listing[i] !in WithUid(kept[..i]) && listing[i] !in now.messages
    ensures UidsSo(listing, kept[i := msg], i + 1, start, after)
  {
    hide Uids, WithUid;
    assert listing[..i + 1] == listing[..i] + [listing[i]];
    assert kept[i := msg][..i + 1] == kept[..i] + [msg];
    UidsGrow(listing[..i], listing[i]);
    WithUidGrows(kept[..i], msg);
  }

  lemma ReplacedFurther(listing: seq<MailMessage>, kept: seq<MailMessage>, i: nat, msg: MailMessage)
    requires i < |listing| == |kept| && kept[i] == listing[i]
    ensures Replaced(listing, kept[i := msg])
         == Replaced(listing, kept) + if msg != listing[i] then {listing[i]} else {}
  {
    var kept' := kept[i := msg];
    forall m | m in Replaced(listing, kept)
      ensures m in Replaced(listing, kept')
    {
      var k :| 0 <= k < |listing| && listing[k] != kept[k] && m == listing[k];
      assert kept'[k] == kept[k];
    }
  }

  lemma MatchedFurther(listing: seq<MailMessage>, kept: seq<MailMessage>, i: nat, msg: MailMessage, start: Index,
                       now: Index, after: Index)
    requires i < |listing| == |kept| && Matched(listing, kept, i, start, now)
    requires Indexed(now.messages, now.uids) && IsNew(listing, start.messages, start.freed)
    requires Matches(listing[i], msg, now, after)
    ensures Matched(listing, kept[i := msg], i + 1, start, after)
  {
    hide Uids, WithUid, Replaced, UidsSo;
    NotYetIndexed(listing, kept, i, start, now);
    WithUidHas(kept[..i], msg);
    WithUidGrows(kept[..i], msg);
    assert kept[i := msg][..i + 1] == kept[..i] + [msg];
    assert listing[i] in listing[..i + 1];
    KeptFurther(listing, kept, i, msg, start, now, after);
    UidsFurther(listing, kept, i, msg, start, now, after);
    ReplacedFurther(listing, kept, i, msg);
  }

  lemma MarkedFurther(v: View, listed: seq<MailMessage>, m: MailMessage)
    ensures Marked(v, listed + [m])
         == Marked(v, listed)[m := if m in v then v[m].(lost := false) else Entry(0, 0, false)]
  {
  }

  lemma NewUid(listing: seq<MailMessage>, kept: seq<MailMessage>, i: nat, start: Index, now: Index, u: string)
    requires i <= |listing| == |kept| && KeptSo(listing, kept, i, start, now)
    requires u !in now.uids
    ensures u !in Uids(listing[..i])
  {
    UidsAre(listing[..i], u);
  }

  /** By how many the messages lost exceed the number kept of them: the UIDs listed again. */
  function Repeats(listing: seq<MailMessage>): int {
    Named(listing) - |Uids(listing)|
  }

  lemma RepeatsFurther(before: seq<MailMessage>, last: MailMessage)
    ensures Repeats(before + [last])
         == Repeats(before) + if last.uid.Some? && last.uid.value in Uids(before) then 1 else 0
  {
    UidsGrow(before, last);
  }

  lemma LoseOne(v: View, listed: seq<MailMessage>, m: MailMessage)
    ensures |LostIn(Marked(v, listed + [m]))|
         == |LostIn(Marked(v, listed))| - if m in v && m !in listed then 1 else 0
  {
    LostAreAbsent(v, listed);
    LostAreAbsent(v, listed + [m]);
    var lost := v.Keys - Members(listed);
    if m in lost {
      assert v.Keys - Members(listed + [m]) == lost - {m};
    } else {
      assert v.Keys - Members(listed + [m]) == lost;
    }
  }

  /** How many messages are still to be lost, as the refresh counts them. */
  ghost function ToLose(v: View, listing: seq<MailMessage>, kept: seq<MailMessage>, i: nat): int
    requires i <= |listing| == |kept|
  {
    |LostIn(Marked(v, WithUid(kept[..i])))| - Repeats(listing[..i])
  }

  lemma LostFurther(v: View, listing: seq<MailMessage>, kept: seq<MailMessage>, i: nat, msg: MailMessage,
                    start: Index, now: Index, after: Index)
    requires i < |listing| == |kept| && Matched(listing, kept, i, start, now)
    requires v.Keys == start.messages && IsNew(listing, start.messages, start.freed)
    requires Indexed(now.messages, now.uids) && Matches(listing[i], msg, now, after)
    ensures ToLose(v, listing, kept[i := msg], i + 1)
         == ToLose(v, listing, kept, i) - if listing[i].uid.Some? && listing[i].uid.value in now.uids then 1 else 0
  {
    hide Uids, WithUid, Named, Repeats, LostIn, Marked, Replaced;
    var before := WithUid(kept[..i]);
    assert listing[..i + 1] == listing[..i] + [listing[i]];
    assert kept[i := msg][..i + 1] == kept[..i] + [msg];
    RepeatsFurther(listing[..i], listing[i]);
    WithUidGrows(kept[..i], msg);
    if listing[i].uid.Some? {
      LoseOne(v, before, msg);
      if listing[i].uid.value in now.uids {
        UidNames(now.messages, now.uids, listing[i].uid.value);
        assert listing[i].uid.value in Uids(listing[..i]) <==> msg in before;
      } else {
        NewUid(listing, kept, i, start, now, listing[i].uid.value);
        NotYetIndexed(listing, kept, i, start, now);
      }
    } else {
      assert before + [] == before;
    }
  }

  lemma NothingMatched(listing: seq<MailMessage>, start: Index)
    ensures Matched(listing, listing, 0, start, start)
  {
    assert WithUid(listing[..0]) == [];
  }

  lemma NothingMarked(v: View, listing: seq<MailMessage>)
    requires LostIn(v) == v.Keys
    ensures v == Marked(v, WithUid(listing[..0]))
    ensures ToLose(v, listing, listing, 0) == |v|
  {
    LostAre(v);
    assert v == Marked(v, []);
  }

  lemma KnownAreListed(listing: seq<MailMessage>, kept: seq<MailMessage>, i: nat, start: Index, now: Index)
    requires i <= |listing| == |kept| && Matched(listing, kept, i, start, now)
    ensures forall m | m in now.messages :: m in start.messages || m in listing
  {
    forall m | m in now.messages
      ensures m in start.messages || m in listing
    {
      WithUidHas(kept[..i], m);
    }
  }

  lemma NotNewIsKnown(listing: seq<MailMessage>, kept: seq<MailMessage>, i: nat, start: Index, now: Index)
    requires i < |listing| == |kept| && Matched(listing, kept, i, start, now)
    requires Indexed(now.messages, now.uids) && IsNew(listing, start.messages, start.freed)
    ensures listing[i] !in start.messages
    ensures forall u | u in now.uids :: now.uids[u] in now.messages
  {
  }

  lemma MarkedOneFurther(v: View, entries: View, kept: seq<MailMessage>, i: nat, msg: MailMessage, known: bool)
    requires i < |kept| && entries == Marked(v, WithUid(kept[..i]))
    requires if known then msg in entries && msg.uid.Some? else msg !in v
    ensures Marked(v, WithUid(kept[i := msg][..i + 1])) ==
            if msg.uid.None? then entries
            else entries[msg := if known then entries[msg].(lost := false) else Entry(0, 0, false)]
  {
    hide WithUid;
    assert kept[i := msg][..i + 1] == kept[..i] + [msg];
    WithUidGrows(kept[..i], msg);
    var before := WithUid(kept[..i]);
    if msg.uid.Some? {
      MarkedFurther(v, before, msg);
    } else {
      assert before + [] == before;
    }
  }

  /** The messages still to come are in neither index, and the others each have their UID. */
  lemma StillToCome(listing: seq<MailMessage>, kept: seq<MailMessage>, i: nat, start: Index, now: Index)
    requires i <= |listing| == |kept| && Matched(listing, kept, i, start, now)
    requires IsNew(listing, start.messages, start.freed)
    ensures forall k :: i <= k < |listing| ==> listing[k] !in now.messages
    ensures forall k :: 0 <= k < i ==> kept[k].uid == listing[k].uid
    ensures forall k :: 0 <= k < i && listing[k].uid.Some? ==> kept[k] in now.messages
    ensures forall m | m in start.messages :: m in now.messages
  {
    forall k | i <= k < |listing|
      ensures listing[k] !in now.messages
    {
      WithUidHas(kept[..i], listing[k]);
    }
    forall k | 0 <= k < i && listing[k].uid.Some?
      ensures kept[k] in now.messages
    {
      WithUidHas(kept[..i], kept[k]);
    }
  }

  lemma OtherMessages(listing: seq<MailMessage>, kept: seq<MailMessage>, i: nat, msg: MailMessage)
    requires i < |listing| == |kept| && msg.uid == listing[i].uid
    requires forall k :: 0 <= k < i ==> kept[k].uid == listing[k].uid
    ensures kept[i := msg][..i + 1] == kept[..i] + [msg]
    ensures DistinctUids(listing) ==> forall k :: 0 <= k < i && listing[k].uid.Some? ==> kept[k] != msg
  {
  }

  lemma AllMatched(v: View, listing: seq<MailMessage>, kept: seq<MailMessage>)
    requires |listing| == |kept|
    ensures ToLose(v, listing, kept, |listing|) == |LostIn(Marked(v, WithUid(kept)))| - Repeats(listing)
    ensures kept[..|listing|] == kept
  {
    assert kept[..|listing|] == kept;
    assert listing[..|listing|] == listing;
  }

  /** A table without repeats or gaps that has exactly these messages. */
  predicate Lists(table: seq<MailMessage?>, messages: set<MailMessage>) {
    && (forall k :: 0 <= k < |table| ==> table[k] in messages)
    && (forall k, l :: 0 <= k < l < |table| ==> table[k] != table[l])
    && (forall m :: m in messages ==> m in table)
  }

  /** Such a table has as many slots as there are messages, and these are what it holds. */
  lemma {:induction false} ListsAll(table: seq<MailMessage?>, messages: set<MailMessage>)
    requires Lists(table, messages)
    ensures |table| == |messages| && (forall m: MailMessage? :: m in table <==> m in messages)
  {
    if table == [] {
      assert messages == {};
    } else {
      var n := |table| - 1;
      var last := table[n];
      assert table == table[..n] + [last] && last !in table[..n];
      ListsAll(table[..n], messages - {last});
      assert messages == messages - {last} + {last};
    }
  }

  lemma Subset(a: set<MailMessage>, b: set<MailMessage>)
    requires a <= b
    ensures |a| <= |b|
  {
    assert b == a + (b - a);
  }

  /** The wanted messages found so far fill the slots up to some place. */
  ghost predicate Listing(wanted: set<MailMessage>, todo: set<MailMessage>, found: set<MailMessage>,
                          table: seq<MailMessage?>, i: nat) {
    && found == wanted - todo
    && |found| == i <= |wanted| == |table|
    && Lists(table[..i], found)
  }

  lemma NothingListed(wanted: set<MailMessage>, todo: set<MailMessage>, table: seq<MailMessage?>)
    requires wanted <= todo && |table| == |wanted|
    ensures Listing(wanted, todo, {}, table, 0)
  {
  }

  lemma ListsMore(table: seq<MailMessage?>, messages: set<MailMessage>, m: MailMessage)
    requires Lists(table, messages) && m !in messages
    ensures Lists(table + [m], messages + {m})
  {
  }

  lemma AllListed(wanted: set<MailMessage>, todo: set<MailMessage>, found: set<MailMessage>,
                  table: seq<MailMessage?>, i: nat)
    requires todo == {} && Listing(wanted, todo, found, table, i)
    ensures Lists(table, wanted) && |table| == |wanted|
  {
    assert found == wanted;
    assert table[..i] == table;
  }

  /** A message less to look at: a slot more is needed, and there, if it is wanted. */
  lemma ListingFurther(wanted: set<MailMessage>, todo: set<MailMessage>, found: set<MailMessage>,
                       table: seq<MailMessage?>, i: nat, m: MailMessage)
    requires m in todo && Listing(wanted, todo, found, table, i)
    ensures m in wanted ==> i < |table| && Listing(wanted, todo - {m}, found + {m}, table[i := m], i + 1)
    ensures m !in wanted ==> Listing(wanted, todo - {m}, found, table, i)
  {
    hide Lists;
    if m in wanted {
      assert found + {m} == wanted - (todo - {m});
      Subset(found + {m}, wanted);
      ListsMore(table[..i], found, m);
      assert table[i := m][..i + 1] == table[..i] + [m];
    } else {
      assert found == wanted - (todo - {m});
    }
  }

  lemma LostAre(v: View)
    ensures LostIn(v) <= v.Keys
    ensures forall m | m in v :: m in LostIn(v) <==> v[m].lost
  {
  }

  lemma OneMore(listed: seq<MailMessage>, i: nat)
    requires i < |listed|
    ensures multiset(listed[..i + 1]) == multiset(listed[..i])[listed[i] := multiset(listed[..i])[listed[i]] + 1]
    ensures multiset(listed[..i + 1])[listed[i]] <= multiset(listed)[listed[i]]
  {
    assert listed[..i + 1] == listed[..i] + [listed[i]];
    assert listed == listed[..i + 1] + listed[i + 1..];
  }

  lemma NothingReferenced(v: View)
    ensures Referenced(v, []) == v
  {
  }

  lemma ReferencedFurther(v: View, listed: seq<MailMessage>, i: nat)
    requires i < |listed| && listed[i] in v
    ensures var before, m := Referenced(v, listed[..i]), listed[i];
            m in before && Referenced(v, listed[..i + 1]) == before[m := before[m].(refs := before[m].refs + 1)]
  {
    OneMore(listed, i);
  }

  /** Each message is there, and a message with references has at least as many as places in the list. */
  ghost predicate Freeable(v: View, listed: seq<MailMessage>) {
    forall i :: 0 <= i < |listed| ==>
      listed[i] in v && (v[listed[i]].refs <= 0 || multiset(listed)[listed[i]] <= v[listed[i]].refs)
  }

  /** Releasing the messages of a list in turn, until one is not there: it was freed, or never registered. */
  ghost function FreeRun(v: View, listed: seq<MailMessage>): Option<View>
    decreases listed
  {
    if listed == [] then Some(v)
    else if listed[0] !in v then None
    else FreeRun(ReleasedOnce(v, listed[0]), listed[1..])
  }

  lemma CountFirst(listed: seq<MailMessage>, m: MailMessage)
    requires listed != []
    ensures multiset(listed)[m] == multiset(listed[1..])[m] + if m == listed[0] then 1 else 0
    ensures m in listed <==> m == listed[0] || m in listed[1..]
    ensures m in listed <==> multiset(listed)[m] > 0
  {
    assert listed == [listed[0]] + listed[1..];
  }

  ghost predicate FreeableAt(v: View, listed: seq<MailMessage>, m: MailMessage) {
    m in listed ==> m in v && (v[m].refs <= 0 || multiset(listed)[m] <= v[m].refs)
  }

  lemma FreeableEverywhere(v: View, listed: seq<MailMessage>)
    ensures Freeable(v, listed) <==> forall m | m in listed :: FreeableAt(v, listed, m)
  {
    if Freeable(v, listed) {
      forall m | m in listed
        ensures FreeableAt(v, listed, m)
      {
        var i :| 0 <= i < |listed| && listed[i] == m;
      }
    } else {
      var i :| 0 <= i < |listed| && !(
        listed[i] in v && (v[listed[i]].refs <= 0 || multiset(listed)[listed[i]] <= v[listed[i]].refs));
      assert !FreeableAt(v, listed, listed[i]);
    }
  }

  lemma FreeableAtFirst(v: View, listed: seq<MailMessage>, m: MailMessage)
    requires listed != [] && listed[0] in v
    ensures FreeableAt(v, listed, m) <==> FreeableAt(ReleasedOnce(v, listed[0]), listed[1..], m)
  {
    CountFirst(listed, m);
    CountRest(listed[1..], m);
  }

  lemma CountRest(listed: seq<MailMessage>, m: MailMessage)
    ensures m in listed <==> multiset(listed)[m] > 0
  {
  }

  lemma FreeableFirst(v: View, listed: seq<MailMessage>)
    requires listed != [] && listed[0] in v
    ensures Freeable(v, listed) <==> Freeable(ReleasedOnce(v, listed[0]), listed[1..])
  {
    var rest := listed[1..];
    var v' := ReleasedOnce(v, listed[0]);
    FreeableEverywhere(v, listed);
    FreeableEverywhere(v', rest);
    NotListed(v', rest);
    hide Freeable, FreeableAt, ReleasedOnce;
    forall m | m in listed
      ensures FreeableAt(v, listed, m) <==> FreeableAt(v', rest, m)
    {
      FreeableAtFirst(v, listed, m);
    }
  }

  lemma NotListed(v: View, listed: seq<MailMessage>)
    ensures forall m: MailMessage :: m !in listed ==> FreeableAt(v, listed, m)
  {
  }

  lemma ReleasedAtFirst(v: View, listed: seq<MailMessage>, m: MailMessage)
    requires listed != [] && listed[0] in v && FreeableAt(v, listed, listed[0])
    ensures var a, b := Released(v, listed), Released(ReleasedOnce(v, listed[0]), listed[1..]);
            (m in a <==> m in b) && (m in a ==> a[m] == b[m])
  {
    CountFirst(listed, m);
    CountRest(listed[1..], m);
  }

  lemma ReleasedFirst(v: View, listed: seq<MailMessage>)
    requires listed != [] && Freeable(v, listed)
    ensures Released(v, listed) == Released(ReleasedOnce(v, listed[0]), listed[1..])
  {
    var a, b := Released(v, listed), Released(ReleasedOnce(v, listed[0]), listed[1..]);
    assert FreeableAt(v, listed, listed[0]);
    hide Released, ReleasedOnce, Freeable, FreeableAt;
    forall m | m in a || m in b
      ensures m in a && m in b && a[m] == b[m]
    {
      ReleasedAtFirst(v, listed, m);
    }
  }

  /** Freeing a list uses no freed message exactly when the list is freeable, and does then what is said
      of it. */
  lemma {:induction false} FreeableExactly(v: View, listed: seq<MailMessage>)
    ensures FreeRun(v, listed).Some? <==> Freeable(v, listed)
    ensures Freeable(v, listed) ==> FreeRun(v, listed) == Some(Released(v, listed))
    decreases listed
  {
    if listed == [] {
      NothingReleased(v);
    } else if listed[0] !in v {
      assert !Freeable(v, listed);
    } else {
      hide Freeable, Released, ReleasedOnce;
      FreeableFirst(v, listed);
      if Freeable(v, listed) {
        ReleasedFirst(v, listed);
      }
      FreeableExactly(ReleasedOnce(v, listed[0]), listed[1..]);
    }
  }

  /** What a refresh returns can be freed. */
  lemma RefreshedIsFreeable(v: View, listed: seq<MailMessage>)
    requires forall m | m in listed && m in v :: v[m].refs >= 0 || multiset(listed)[m] == 1
    ensures Freeable(Referenced(Marked(v, listed), listed), listed)
  {
    var w := Referenced(Marked(v, listed), listed);
    forall i | 0 <= i < |listed|
      ensures listed[i] in w && (w[listed[i]].refs <= 0 || multiset(listed)[listed[i]] <= w[listed[i]].refs)
    {
    }
  }

  function Gone(before: set<MailMessage>, now: set<MailMessage>): set<MailMessage> {
    before - now
  }

  lemma GoneFurther(before: set<MailMessage>, now: set<MailMessage>, after: set<MailMessage>)
    requires after <= now <= before
    ensures Gone(before, after) == Gone(before, now) + Gone(now, after)
  {
  }

  lemma GoneOnce(before: set<MailMessage>, m: MailMessage)
    requires m in before
    ensures Gone(before, before) == {} && Gone(before, before - {m}) == {m}
  {
  }

  lemma NothingReleased(v: View)
    ensures Released(v, []) == v
    ensures Gone(v.Keys, v.Keys) == {}
  {
  }

  lemma ReleasedMore(v: View, listed: seq<MailMessage>, m: MailMessage)
    requires m in v && (v[m].refs <= 0 || multiset(listed)[m] < v[m].refs)
    ensures m in Released(v, listed) && Released(v, listed + [m]) == ReleasedOnce(Released(v, listed), m)
  {
    var longer := listed + [m];
    assert multiset(longer) == multiset(listed) + multiset{m};
    assert Released(v, listed)[m].refs == v[m].refs - multiset(listed)[m];
    forall n | n in v && n != m
      ensures Spent(v, longer, n) == Spent(v, listed, n)
    {
    }
  }

  lemma ReleasedFurther(v: View, listed: seq<MailMessage>, i: nat)
    requires i < |listed| && Freeable(v, listed)
    ensures var before, m := Released(v, listed[..i]), listed[i];
            m in before && Released(v, listed[..i + 1]) == ReleasedOnce(before, m)
  {
    hide Released, ReleasedOnce;
    OneMore(listed, i);
    assert listed[..i + 1] == listed[..i] + [listed[i]];
    ReleasedMore(v, listed[..i], listed[i]);
  }

  lemma ReleasedOnceAs(v: View, m: MailMessage)
    requires m in v
    ensures var w := v[m := v[m].(refs := v[m].refs - 1)];
            ReleasedOnce(v, m) == if w[m].refs == 0 then w - {m} else w
  {
  }

  /** All entries marked as lost but those still to do. */
  ghost function MarkedBut(v: View, todo: set<MailMessage>): View {
    map m | m in v :: if m in todo then v[m] else v[m].(lost := true)
  }

  lemma NothingMarkedYet(v: View)
    ensures MarkedBut(v, v.Keys) == v
  {
  }

  lemma MarkOneMore(v: View, todo: set<MailMessage>, m: MailMessage)
    requires m in todo && m in v
    ensures var before := MarkedBut(v, todo);
            m in before && MarkedBut(v, todo - {m}) == before[m := before[m].(lost := true)]
  {
  }

  /** Marking first changes nothing, for a listing sets the mark of every entry. */
  lemma MarkingAll(v: View, listed: seq<MailMessage>)
    ensures LostIn(MarkedBut(v, {})) == v.Keys
    ensures Marked(MarkedBut(v, {}), listed) == Marked(v, listed)
  {
  }

  /** What a refresh makes of a listing whose messages all have different UIDs, and of the indexes. */
  ghost predicate IsRefresh(listing: seq<MailMessage>, list: seq<MailMessage>, start: Index, now: Index) {
    && |list| == |listing|
    && (forall k :: 0 <= k < |list| ==> listing[k].uid.Some? && list[k].uid == listing[k].uid)
    && (forall k :: 0 <= k < |list| ==>
          list[k] == if listing[k].uid.value in start.uids then start.uids[listing[k].uid.value] else listing[k])
    && now.messages == start.messages + Members(list)
    && now.freed == start.freed + Replaced(listing, list)
  }

  /** A known UID keeps its message and the listed one is freed; another one's message is registered. */
  lemma RefreshIs(listing: seq<MailMessage>, list: seq<MailMessage>, start: Index, now: Index, k: nat)
    requires IsRefresh(listing, list, start, now) && k < |listing|
    ensures |list| == |listing| && listing[k].uid.Some? && list[k] in now.messages
    ensures var u := listing[k].uid.value;
            if u in start.uids then
              list[k] == start.uids[u] && (list[k] != listing[k] ==> listing[k] in now.freed)
            else
              list[k] == listing[k]
    ensures forall m :: m in start.messages ==> m in now.messages
  {
  }

  lemma {:induction false} AllHaveUids(listing: seq<MailMessage>)
    requires forall m :: m in listing ==> m.uid.Some?
    ensures WithUid(listing) == listing
  {
    if listing != [] {
      AllHaveUids(listing[..|listing| - 1]);
    }
  }

  lemma NoRepeats(listing: seq<MailMessage>)
    ensures Repeats(listing) >= 0
    ensures Repeats(listing) == 0 <==> DistinctUids(listing)
  {
    DistinctAreCounted(listing);
  }

  lemma AllNamed(listing: seq<MailMessage>, list: seq<MailMessage>, start: Index, now: Index)
    requires |listing| == |list| && Matched(listing, list, |listing|, start, now)
    requires Indexed(start.messages, start.uids)
    requires DistinctUids(listing) && forall m :: m in listing ==> m.uid.Some?
    ensures IsRefresh(listing, list, start, now) && WithUid(list) == list
    ensures forall m :: m in list ==> m in now.messages
  {
    hide DistinctUids, Indexed, WithUid;
    assert list[..|listing|] == list;
    AllHaveUids(list);
    forall k | 0 <= k < |list|
      ensures list[k] == if listing[k].uid.value in start.uids then start.uids[listing[k].uid.value] else listing[k]
    {
      KeptIs(listing, list, k, start, now);
    }
  }

  /** What is in the list is registered exactly when every listed message has a UID. */
  lemma RegisteredExactlyIfNamed(listing: seq<MailMessage>, list: seq<MailMessage>, start: Index, now: Index)
    requires |listing| == |list| && Matched(listing, list, |listing|, start, now)
    requires Indexed(now.messages, now.uids) && IsNew(listing, start.messages, start.freed)
    ensures (forall m :: m in list ==> m in now.messages) <==> (forall m :: m in listing ==> m.uid.Some?)
  {
    assert list[..|listing|] == list;
    forall k | 0 <= k < |list|
      ensures list[k] in now.messages <==> listing[k].uid.Some?
      ensures list[k] in list && listing[k] in listing
    {
      WithUidHas(list, list[k]);
    }
    if m :| m in listing && m.uid.None? {
      var k :| 0 <= k < |listing| && listing[k] == m;
      assert list[k] !in now.messages;
    }
  }

  lemma KeptIs(listing: seq<MailMessage>, list: seq<MailMessage>, k: nat, start: Index, now: Index)
    requires k < |listing| == |list| && Matched(listing, list, |listing|, start, now)
    requires Indexed(start.messages, start.uids) && DistinctUids(listing) && listing[k].uid.Some?
    ensures list[k] == if listing[k].uid.value in start.uids then start.uids[listing[k].uid.value] else listing[k]
  {
    var u := listing[k].uid.value;
    if u !in start.uids {
      assert list[k] in listing[..|listing|];
      var j :| 0 <= j < |listing| && listing[j] == list[k];
      assert listing[j].uid == listing[k].uid;
    }
  }

  lemma {:induction false} OnceEach(list: seq<MailMessage>, m: MailMessage)
    requires forall k, l :: 0 <= k < l < |list| ==> list[k] != list[l]
    ensures multiset(list)[m] == if m in list then 1 else 0
  {
    if list != [] {
      var n := |list| - 1;
      assert list == list[..n] + [list[n]];
      OnceEach(list[..n], m);
    }
  }

  /** A refresh raises the reference count of each listed message by one, and of no other. */
  lemma RefreshRefersOnce(v: View, listing: seq<MailMessage>, list: seq<MailMessage>, start: Index, now: Index,
                          m: MailMessage)
    requires IsRefresh(listing, list, start, now) && DistinctUids(listing)
    requires m in v || m in list
    ensures m in Referenced(Marked(v, list), list)
    ensures Referenced(Marked(v, list), list)[m].refs
         == (if m in v then v[m].refs else 0) + (if m in list then 1 else 0)
  {
    forall k, l | 0 <= k < l < |list|
      ensures list[k] != list[l]
    {
      assert list[k].uid == listing[k].uid && list[l].uid == listing[l].uid;
    }
    OnceEach(list, m);
  }

  // The folder's registry

  /** A table with empty slots. */
  function Slots(n: nat): (table: seq<MailMessage?>)
    ensures |table| == n
  {
    if n == 0 then [] else Slots(n - 1) + [null]
  }

  class FolderRefInfo {
    var msgHash: map<MailMessage, MessageRef>
    var uidHash: map<string, MailMessage>
    /** The messages given back to the allocator. */
    ghost var freed: set<MailMessage>

    constructor ()
      ensures Valid() && Entries() == map[] && freed == {}
    {
      msgHash := map[];
      uidHash := map[];
      freed := {};
    }

    ghost predicate Owned()
      reads this
    {
      && (forall m :: m in msgHash ==> msgHash[m].msg == m)
      && msgHash.Keys !! freed
    }

    ghost predicate Agree()
      reads this
    {
      Indexed(msgHash.Keys, uidHash)
    }

    ghost predicate Valid()
      reads this
    {
      Owned() && Agree()
    }

    ghost function Now(): Index
      reads this
    {
      Index(msgHash.Keys, uidHash, freed)
    }

    /** The reference records in use. */
    function Refs(): set<MessageRef>
      reads this
    {
      msgHash.Values
    }

    function Messages(): set<MailMessage>
      reads this
    {
      msgHash.Keys
    }

    ghost function Entries(): (v: View)
      reads this, msgHash.Values
      ensures v.Keys == msgHash.Keys
    {
      map m | m in msgHash :: msgHash[m].Fields()
    }

    /** Every reference record is one of these or new. */
    twostate predicate OnlyNewRecords()
      reads this
    {
      forall ref :: ref in msgHash.Values ==> ref in old(msgHash.Values) || fresh(ref)
    }

    method MessageFree(msg: MailMessage)
      requires msg !in freed
      modifies this`freed
      ensures freed == old(freed) + {msg} && Entries() == old(Entries())
    {
      freed := freed + {msg};
    }

    method SetLost(msg: MailMessage, lost: bool)
      requires Owned() && msg in msgHash
      modifies Refs()`lost
      ensures Entries() == old(Entries())[msg := old(Entries())[msg].(lost := lost)]
    {
      var ref := msgHash[msg];
      ref.lost := lost;
    }

    /** Returns the new number of references. */
    method FolderMessageRef(msg: MailMessage) returns (count: int)
      requires Owned() && msg in msgHash
      modifies Refs()`refCount
      ensures Entries() == old(Entries())[msg := old(Entries())[msg].(refs := old(Entries())[msg].refs + 1)]
      ensures count == Entries()[msg].refs
    {
      var ref := msgHash[msg];
      ref.refCount := ref.refCount + 1;
      count := ref.refCount;
    }

    method SetRef(msg: MailMessage)
      requires Owned() && msg !in freed
      modifies this`msgHash
      ensures Owned() && msg in msgHash && fresh(msgHash[msg]) && msgHash == old(msgHash)[msg := msgHash[msg]]
      ensures Entries() == old(Entries())[msg := Entry(0, 0, false)]
    {
      var ref := new MessageRef(msg);
      msgHash := msgHash[msg := ref];
    }

    /** The indexes agree afterwards exactly when no other message had the UID. */
    method FolderMessageAdd(msg: MailMessage)
      requires Valid() && msg !in freed
      modifies this
      ensures Entries() == old(Entries())[msg := Entry(0, 0, false)]
      ensures uidHash == if msg.uid.Some? then old(uidHash)[msg.uid.value := msg] else old(uidHash)
      ensures Owned() && freed == old(freed)
      ensures msg in msgHash && fresh(msgHash[msg]) && msgHash == old(msgHash)[msg := msgHash[msg]]
      ensures Agree() <==> (msg.uid.Some? && msg.uid.value in old(uidHash) ==> old(uidHash)[msg.uid.value] == msg)
    {
      hide Indexed;
      AddingIndexes(msgHash.Keys, uidHash, msg);
      ghost var messages := msgHash.Keys;
      SetRef(msg);
      assert msgHash.Keys == messages + {msg};
      if msg.uid.Some? {
        uidHash := uidHash[msg.uid.value := msg];
      }
    }

    method FolderMessageRemove(msg: MailMessage)
      requires Valid() && msg in msgHash
      modifies this
      ensures Valid() && Entries() == old(Entries()) - {msg}
      ensures msgHash == old(msgHash) - {msg} && freed == old(freed)
    {
      hide Indexed;
      RemovingIndexes(msgHash.Keys, uidHash, msg);
      ghost var messages := msgHash.Keys;
      if msg.uid.Some? {
        uidHash := uidHash - {msg.uid.value};
      }
      msgHash := msgHash - {msg};
      assert msgHash.Keys == messages - {msg};
    }

    method MessageUnref(msg: MailMessage) returns (count: int)
      requires Owned() && msg in msgHash
      modifies Refs()`refCount
      ensures Entries() == old(Entries())[msg := old(Entries())[msg].(refs := old(Entries())[msg].refs - 1)]
      ensures count == Entries()[msg].refs
    {
      var ref := msgHash[msg];
      ref.refCount := ref.refCount - 1;
      count := ref.refCount;
    }

    /** Removes and frees the message when its last reference goes. */
    method FolderMessageUnref(msg: MailMessage) returns (count: int)
      requires Valid() && msg in msgHash
      modifies this, Refs()`refCount
      ensures Valid() && Entries() == ReleasedOnce(old(Entries()), msg)
      ensures count == old(Entries())[msg].refs - 1
      ensures msgHash.Keys <= old(msgHash.Keys) && Refs() <= old(Refs())
      ensures freed == old(freed) + Gone(old(msgHash.Keys), msgHash.Keys)
    {
      hide Indexed, Entries, Gone, ReleasedOnce;
      ghost var keys := msgHash.Keys;
      ReleasedOnceAs(Entries(), msg);
      GoneOnce(keys, msg);
      count := MessageUnref(msg);
      if count == 0 {
        FolderMessageRemove(msg);
        MessageFree(msg);
      }
    }

    /** Marks every message as lost, in whatever order the table gives them. */
    method MarkAll()
      requires Owned()
      modifies Refs()`lost
      ensures Entries() == MarkedBut(old(Entries()), {})
    {
      hide Entries, MarkedBut;
      ghost var v := Entries();
      NothingMarkedYet(v);
      var todo := msgHash.Keys;
      while todo != {}
        invariant todo <= msgHash.Keys && Entries() == MarkedBut(v, todo)
        decreases |todo|
      {
        var m :| m in todo;
        MarkOneMore(v, todo, m);
        SetLost(m, true);
        todo := todo - {m};
      }
    }

    method SetIndex(msg: MailMessage, index: nat)
      modifies msg`index
      ensures msg.index == index && Entries() == old(Entries())
    {
      msg.index := index;
    }

    /** One message of a listing: replaced by the one known under its UID, or added. */
    method MatchOne(msg: MailMessage) returns (kept: MailMessage, known: bool)
      requires Valid() && msg !in msgHash && msg !in freed
      modifies this, Refs()`lost, Messages()`index
      ensures Valid() && OnlyNewRecords() && Matches(msg, kept, old(Now()), Now()) && kept.uid == msg.uid
      ensures known == (msg.uid.Some? && msg.uid.value in old(uidHash))
      ensures Entries() ==
              if msg.uid.None? then old(Entries())
              else old(Entries())[kept := if known then old(Entries())[kept].(lost := false) else Entry(0, 0, false)]
      ensures kept.index == old(msg.index)
      ensures forall m :: m in old(msgHash) && m != kept ==> m.index == old(m.index)
    {
      hide Indexed, Entries;
      kept, known := msg, false;
      if msg.uid.None? {
        return;
      }
      if msg.uid.value in uidHash {
        UidNames(msgHash.Keys, uidHash, msg.uid.value);
        kept, known := uidHash[msg.uid.value], true;
        SetIndex(kept, msg.index);
        MessageFree(msg);
        SetLost(kept, false);
      } else {
        FolderMessageAdd(msg);
      }
    }

    /** Brings in the message in one place of a listing; v is what the entries were at the start. */
    method MatchAt(listing: seq<MailMessage>, list: seq<MailMessage>, i: nat, ghost v: View, ghost start: Index)
      returns (list': seq<MailMessage>, known: bool)
      requires Valid() && i < |listing| == |list| && Matched(listing, list, i, start, Now())
      requires v.Keys == start.messages && IsNew(listing, start.messages, start.freed)
      requires Entries() == Marked(v, WithUid(list[..i]))
      modifies this, Refs()`lost, Messages()`index
      ensures Valid() && OnlyNewRecords() && |list'| == |listing|
      ensures Matched(listing, list', i + 1, start, Now())
      ensures Entries() == Marked(v, WithUid(list'[..i + 1]))
      ensures ToLose(v, listing, list', i + 1) == ToLose(v, listing, list, i) - if known then 1 else 0
      ensures list' == list[i := list'[i]] && list'[i].index == old(listing[i].index)
      ensures list'[i].uid == listing[i].uid
      ensures forall m :: m in old(msgHash) && m != list'[i] ==> m.index == old(m.index)
    {
      hide Indexed, Matched, Uids, Named, Marked, LostIn, WithUid, Repeats, IsNew, ToLose, Owned, Entries;
      ghost var now, entries := Now(), Entries();
      NotYetIndexed(listing, list, i, start, now);
      NotNewIsKnown(listing, list, i, start, now);
      var msg;
      msg, known := MatchOne(listing[i]);
      list' := list[i := msg];
      MatchedFurther(listing, list, i, msg, start, now, Now());
      LostFurther(v, listing, list, i, msg, start, now, Now());
      MarkedOneFurther(v, entries, list, i, msg, known);
    }

    /** Brings in a listing; what is in the places of known messages is replaced, and freed. */
    method MatchListing(listing: seq<MailMessage>) returns (list: seq<MailMessage>, lostCount: int)
      requires Valid() && IsNew(listing, msgHash.Keys, freed)
      modifies this, Refs()`lost, Messages()`index, listing`index
      ensures Valid() && OnlyNewRecords() && |list| == |listing|
      ensures Matched(listing, list, |listing|, old(Now()), Now())
      ensures Entries() == Marked(old(Entries()), WithUid(list))
      ensures lostCount == |LostIn(Entries())| - Repeats(listing)
      ensures (forall m :: m in list ==> m in msgHash) <==> (forall m :: m in listing ==> m.uid.Some?)
      ensures forall m :: m in old(msgHash) && m !in list ==> m.index == old(m.index)
      ensures DistinctUids(listing) ==>
                forall k :: 0 <= k < |list| && listing[k].uid.Some? ==> list[k].index == old(listing[k].index)
    {
      hide Indexed, DistinctUids, Matched, Uids, Named, Marked, MarkedBut, LostIn, WithUid, Repeats;
      hide IsNew, ToLose, Owned, Entries;
      ghost var start, v := Now(), MarkedBut(Entries(), {});
      MarkingAll(Entries(), []);
      MarkAll();
      list, lostCount := listing, |msgHash|;
      NothingMatched(listing, start);
      NothingMarked(v, listing);
      for i := 0 to |listing|
        invariant Valid() && OnlyNewRecords() && |list| == |listing|
        invariant Matched(listing, list, i, start, Now())
        invariant Entries() == Marked(v, WithUid(list[..i]))
        invariant lostCount == ToLose(v, listing, list, i)
        invariant forall k :: i <= k < |listing| ==> listing[k].index == old(listing[k].index)
        invariant forall m :: m in start.messages && m !in list[..i] ==> m.index == old(m.index)
        invariant DistinctUids(listing) ==>
                    forall k :: 0 <= k < i && listing[k].uid.Some? ==> list[k].index == old(listing[k].index)
      {
        KnownAreListed(listing, list, i, start, Now());
        StillToCome(listing, list, i, start, Now());
        var known;
        ghost var before := list;
        list, known := MatchAt(listing, list, i, v, start);
        OtherMessages(listing, before, i, list[i]);
        if known {
          lostCount := lostCount - 1;
        }
      }
      AllMatched(v, listing, list);
      RegisteredExactlyIfNamed(listing, list, start, Now());
      MarkingAll(old(Entries()), WithUid(list));
    }

    method IsLost(msg: MailMessage) returns (lost: bool)
      requires Owned() && msg in msgHash
      ensures lost == Entries()[msg].lost
    {
      lost := msgHash[msg].lost;
    }

    /** Fills a table with the lost messages, in whatever order the other table gives them. */
    method CollectLost(lostCount: nat) returns (lost: seq<MailMessage?>)
      requires Owned() && lostCount == |LostIn(Entries())|
      ensures |lost| == lostCount && Lists(lost, LostIn(Entries()))
    {
      hide LostIn, Lists, Listing, Slots, Owned, Entries;
      ghost var v := Entries();
      ghost var wanted := LostIn(v);
      LostAre(v);
      lost := Slots(lostCount);
      var i := 0;
      var todo := msgHash.Keys;
      ghost var found: set<MailMessage> := {};
      NothingListed(wanted, todo, lost);
      while todo != {}
        invariant todo <= msgHash.Keys && Listing(wanted, todo, found, lost, i)
        decreases |todo|
      {
        var m :| m in todo;
        ListingFurther(wanted, todo, found, lost, i, m);
        todo := todo - {m};
        var isLost := IsLost(m);
        if isLost {
          found := found + {m};
          lost := lost[i := m];
          i := i + 1;
        }
      }
      AllListed(wanted, todo, found, lost, i);
    }

    /** References each message of a list. */
    method ReferenceAll(list: seq<MailMessage>)
      requires Owned() && forall m :: m in list ==> m in msgHash
      modifies Refs()`refCount
      ensures Entries() == Referenced(old(Entries()), list)
    {
      hide Referenced, Owned, Entries;
      ghost var v := Entries();
      NothingReferenced(v);
      for i := 0 to |list|
        invariant Entries() == Referenced(v, list[..i])
      {
        var count := FolderMessageRef(list[i]);
        ReferencedFurther(v, list, i);
      }
      assert list[..|list|] == list;
    }

    /** Frees a list: each message is released once for each place it has there. */
    method FolderFreeMsgList(list: seq<MailMessage>)
      requires Valid() && Freeable(Entries(), list)
      modifies this, Refs()`refCount
      ensures Valid() && Entries() == Released(old(Entries()), list)
      ensures freed == old(freed) + Gone(old(msgHash.Keys), msgHash.Keys)
    {
      hide Released, ReleasedOnce, Indexed, Owned, Entries, Freeable, Gone;
      ghost var v, keys := Entries(), msgHash.Keys;
      NothingReleased(v);
      for i := 0 to |list|
        invariant Valid() && Entries() == Released(v, list[..i])
        invariant msgHash.Keys <= keys && Refs() <= old(Refs())
        invariant freed == old(freed) + Gone(keys, msgHash.Keys)
      {
        ReleasedFurther(v, list, i);
        ghost var now := msgHash.Keys;
        var count := FolderMessageUnref(list[i]);
        GoneFurther(keys, now, msgHash.Keys);
      }
      assert list[..|list|] == list;
    }

    /** Brings in a listing where no UID is missing or there twice, after marking what was there before. */
    method BringIn(listing: seq<MailMessage>) returns (list: seq<MailMessage>, lostCount: int)
      requires Valid() && IsNew(listing, msgHash.Keys, freed)
      requires DistinctUids(listing) && forall m :: m in listing ==> m.uid.Some?
      modifies this, Refs()`lost, Refs()`refCount, Messages()`index, listing`index
      ensures Valid() && OnlyNewRecords() && forall m :: m in list ==> m in msgHash
      ensures IsRefresh(listing, list, old(Now()), Now())
      ensures Entries() == Marked(old(Entries()), list)
      ensures LostIn(Entries()) == old(msgHash.Keys) - Members(list) && lostCount == |LostIn(Entries())|
      ensures forall k :: 0 <= k < |list| ==> list[k].index == old(listing[k].index)
      ensures forall m :: m in old(msgHash) && m !in list ==> m.index == old(m.index)
    {
      hide Indexed, DistinctUids, Matched, Uids, Named, Marked, MarkedBut, LostIn, WithUid, Repeats;
      hide IsNew, IsRefresh, Owned, Entries, Members;
      ghost var start, v := Now(), Entries();
      list, lostCount := MatchListing(listing);
      AllNamed(listing, list, start, Now());
      NoRepeats(listing);
      LostAreAbsent(v, list);
    }

    /** Refreshes the registry from the server's listing. */
    method FolderUpdateMsgList(listing: seq<MailMessage>) returns (list: seq<MailMessage>, lost: seq<MailMessage?>)
      requires Valid() && IsNew(listing, msgHash.Keys, freed)
      requires DistinctUids(listing) && forall m :: m in listing ==> m.uid.Some?
      modifies this, Refs()`lost, Refs()`refCount, Messages()`index, listing`index
      ensures Valid() && IsRefresh(listing, list, old(Now()), Now())
      ensures Entries() == Referenced(Marked(old(Entries()), list), list)
      ensures Lists(lost, old(msgHash.Keys) - Members(list))
      ensures forall k :: 0 <= k < |list| ==> list[k].index == old(listing[k].index)
      ensures forall m :: m in old(msgHash) && m !in list ==> m.index == old(m.index)
    {
      hide Indexed, DistinctUids, Marked, Referenced, LostIn, Lists, IsNew, IsRefresh, Owned, Entries, Members;
      ghost var keys := msgHash.Keys;
      var lostCount;
      list, lostCount := BringIn(listing);
      ghost var absent := keys - Members(list);
      lost := CollectLost(lostCount);
      assert Lists(lost, absent);
      ReferenceAll(list);
    }
  }
}
