/** mua/Mailbox.java: the in-memory list of a mailbox's messages, each tied to its storage entry. */
module Mailboxes {
  import opened Results
  import opened Encoding
  import opened Headers
  import opened Messages

  /** A Storage.Box.Entry: an opaque reference to the file a message is stored in. */
  type EntryToken = nat

  /** MailboxEntry: a message and the storage entry it came from. */
  datatype MailboxEntry = MailboxEntry(entry: EntryToken, message: Message)

  /** The four orders: dateOrder, senderOrder, recipientsOrder, subjectOrder. */
  datatype Order = ByDate | BySender | ByRecipients | BySubject

  /** Every entry holds a valid message, as every Message object is. */
  predicate AllValid(s: seq<MailboxEntry>) {
    forall i :: 0 <= i < |s| ==> ValidMessage(s[i].message)
  }

  /**
   * The header half of the Message invariant: the four headers the
   * comparators read are present, each filed under its own type.
   */
  predicate Keyed(m: Message) {
    && "Date" in m.headers && m.headers["Date"].Date?
    && "From" in m.headers && m.headers["From"].From?
    && "To" in m.headers && m.headers["To"].To?
    && "Subject" in m.headers && m.headers["Subject"].Subject?
  }

  predicate AllKeyed(s: seq<MailboxEntry>) {
    forall i :: 0 <= i < |s| ==> Keyed(s[i].message)
  }

  lemma ValidIsKeyed(m: Message)
    requires ValidMessage(m)
    ensures Keyed(m)
  {
    TypeNames(m.headers["Date"]);
    TypeNames(m.headers["From"]);
    TypeNames(m.headers["To"]);
    TypeNames(m.headers["Subject"]);
  }

  lemma AllValidIsKeyed(s: seq<MailboxEntry>)
    requires AllValid(s)
    ensures AllKeyed(s)
  {
    forall i | 0 <= i < |s|
      ensures Keyed(s[i].message)
    {
      ValidIsKeyed(s[i].message);
    }
  }

  /** Reordering keeps every message valid and keyed. */
  lemma PermutedKeepsValid(s: seq<MailboxEntry>, t: seq<MailboxEntry>)
    requires AllValid(s) && AllKeyed(s) && multiset(t) == multiset(s)
    ensures AllValid(t) && AllKeyed(t)
  {
    forall i | 0 <= i < |t|
      ensures ValidMessage(t[i].message) && Keyed(t[i].message)
    {
      assert t[i] in multiset(s);
      var j :| 0 <= j < |s| && s[j] == t[i];
    }
  }

  /** The header an order compares: getDateHeader, getFromHeader, getToHeader, getSubjectHeader. */
  function Key(order: Order, m: Message): (h: Header)
    requires Keyed(m)
    ensures order == ByDate ==> h.Date?
    ensures order == BySender ==> h.From?
    ensures order == ByRecipients ==> h.To?
    ensures order == BySubject ==> h.Subject?
  {
    var k := match order
      case ByDate => "Date"
      case BySender => "From"
      case ByRecipients => "To"
      case BySubject => "Subject";
    m.headers[k]
  }

  /** The order's comparator, or its `reversed()` (the arguments swapped) when `reverse` holds. */
  function Cmp(order: Order, reverse: bool, a: MailboxEntry, b: MailboxEntry): int
    requires Keyed(a.message) && Keyed(b.message)
  {
    if reverse then Headers.Compare(Key(order, b.message), Key(order, a.message))
    else Headers.Compare(Key(order, a.message), Key(order, b.message))
  }

  /** Each comparator is antisymmetric in sign and transitive. */
  lemma CmpIsTotalPreorder(order: Order, reverse: bool, a: MailboxEntry, b: MailboxEntry, c: MailboxEntry)
    requires Keyed(a.message) && Keyed(b.message) && Keyed(c.message)
    ensures Cmp(order, reverse, a, b) > 0 <==> Cmp(order, reverse, b, a) < 0
    ensures Cmp(order, reverse, a, b) <= 0 && Cmp(order, reverse, b, c) <= 0 ==> Cmp(order, reverse, a, c) <= 0
  {
    var ka, kb, kc := Key(order, a.message), Key(order, b.message), Key(order, c.message);
    CompareIsTotalPreorder(ka, kb, kc);
    CompareIsTotalPreorder(kb, ka, kc);
    CompareIsTotalPreorder(kc, kb, ka);
    CompareIsTotalPreorder(kb, kc, ka);
  }

  /** Every neighbour pair is in order under the comparator. */
  predicate Sorted(order: Order, reverse: bool, s: seq<MailboxEntry>)
    requires AllKeyed(s)
  {
    forall i :: 0 <= i < |s| - 1 ==> Cmp(order, reverse, s[i], s[i + 1]) <= 0
  }

  lemma AllKeyedTail(s: seq<MailboxEntry>)
    requires AllKeyed(s) && s != []
    ensures AllKeyed(s[1..])
  {
    forall i | 0 <= i < |s| - 1
      ensures Keyed(s[1..][i].message)
    {
      assert s[1..][i] == s[i + 1];
    }
  }

  /**
   * `x` placed before the first element it does not exceed. Inserting the
   * elements from the back this way keeps equal elements in their first
   * order, as the stable List.sort does.
   */
  function Insert(order: Order, reverse: bool, x: MailboxEntry, s: seq<MailboxEntry>): (r: seq<MailboxEntry>)
    requires Keyed(x.message) && AllKeyed(s)
    ensures |r| == |s| + 1
    ensures AllKeyed(r)
    ensures r[0] == x || (s != [] && r[0] == s[0])
  {
    if s == [] || Cmp(order, reverse, x, s[0]) <= 0 then [x] + s
    else
      AllKeyedTail(s);
      [s[0]] + Insert(order, reverse, x, s[1..])
  }

  /** Where Insert places `x`: past every element it exceeds, up to the first it does not. */
  function InsertPos(order: Order, reverse: bool, x: MailboxEntry, s: seq<MailboxEntry>): (k: nat)
    requires Keyed(x.message) && AllKeyed(s)
    ensures k <= |s|
  {
    if s == [] || Cmp(order, reverse, x, s[0]) <= 0 then 0
    else
      AllKeyedTail(s);
      1 + InsertPos(order, reverse, x, s[1..])
  }

  /** The two ways Insert goes, told apart by InsertPos. */
  lemma InsertCases(order: Order, reverse: bool, x: MailboxEntry, s: seq<MailboxEntry>)
    requires Keyed(x.message) && AllKeyed(s)
    ensures InsertPos(order, reverse, x, s) == 0 ==> Insert(order, reverse, x, s) == [x] + s
    ensures InsertPos(order, reverse, x, s) > 0 ==>
              && s != [] && AllKeyed(s[1..])
              && Insert(order, reverse, x, s) == [s[0]] + Insert(order, reverse, x, s[1..])
              && InsertPos(order, reverse, x, s) == 1 + InsertPos(order, reverse, x, s[1..])
  {
    if s == [] || Cmp(order, reverse, x, s[0]) <= 0 {
      InsertFront(order, reverse, x, s);
    } else {
      InsertStep(order, reverse, x, s);
    }
  }

  /** Putting `h` in front of a split list moves the split point one place on. */
  lemma ConsSplit(h: MailboxEntry, t: seq<MailboxEntry>, k: nat, x: MailboxEntry)
    requires k <= |t|
    ensures [h] + (t[..k] + [x] + t[k..]) == ([h] + t)[..k + 1] + [x] + ([h] + t)[k + 1..]
  {
    assert ([h] + t)[..k + 1] == [h] + t[..k];
    assert ([h] + t)[k + 1..] == t[k..];
  }

  /** Insert splits the list at InsertPos and puts `x` in between. */
  lemma {:induction false} InsertAt(order: Order, reverse: bool, x: MailboxEntry, s: seq<MailboxEntry>)
    requires Keyed(x.message) && AllKeyed(s)
    ensures var k := InsertPos(order, reverse, x, s);
            Insert(order, reverse, x, s) == s[..k] + [x] + s[k..]
  {
    var k := InsertPos(order, reverse, x, s);
    InsertCases(order, reverse, x, s);
    if k == 0 {
      assert s[..0] + [x] + s[0..] == [x] + s;
    } else {
      var t := s[1..];
      var r := Insert(order, reverse, x, t);
      InsertAt(order, reverse, x, t);
      ConsSplit(s[0], t, k - 1, x);
      assert [s[0]] + t == s;
      assert Insert(order, reverse, x, s) == [s[0]] + r;
    }
  }

  /** Inserting adds exactly the one element. */
  lemma InsertPermutes(order: Order, reverse: bool, x: MailboxEntry, s: seq<MailboxEntry>)
    requires Keyed(x.message) && AllKeyed(s)
    ensures multiset(Insert(order, reverse, x, s)) == multiset(s) + multiset{x}
  {
    InsertAt(order, reverse, x, s);
    var k := InsertPos(order, reverse, x, s);
    var a, b := s[..k], s[k..];
    assert s == a + b;
    assert multiset(a + [x] + b) == multiset(a) + multiset{x} + multiset(b);
  }

  /** A sorted list stays sorted without its first entry. */
  lemma SortedTail(order: Order, reverse: bool, s: seq<MailboxEntry>)
    requires AllKeyed(s) && s != [] && Sorted(order, reverse, s)
    ensures AllKeyed(s[1..]) && Sorted(order, reverse, s[1..])
  {
    AllKeyedTail(s);
    var t := s[1..];
    forall i | 0 <= i < |t| - 1
      ensures Cmp(order, reverse, t[i], t[i + 1]) <= 0
    {
      assert t[i] == s[i + 1] && t[i + 1] == s[i + 2];
    }
  }

  /** List.sort with the order's comparator: a stable insertion sort. */
  function Sort(order: Order, reverse: bool, s: seq<MailboxEntry>): (r: seq<MailboxEntry>)
    requires AllKeyed(s)
    ensures |r| == |s|
    ensures AllKeyed(r)
  {
    if s == [] then []
    else
      AllKeyedTail(s);
      Insert(order, reverse, s[0], Sort(order, reverse, s[1..]))
  }

  /** Sorting only reorders: the same entries, as often as before. */
  lemma {:induction false} SortPermutes(order: Order, reverse: bool, s: seq<MailboxEntry>)
    requires AllKeyed(s)
    ensures multiset(Sort(order, reverse, s)) == multiset(s)
  {
    if s != [] {
      var t := s[1..];
      SortUnfold(order, reverse, s);
      SortPermutes(order, reverse, t);
      InsertPermutes(order, reverse, s[0], Sort(order, reverse, t));
      assert multiset(s) == multiset(t) + multiset{s[0]} by {
        assert s == [s[0]] + t;
      }
    }
  }

  lemma SortUnfold(order: Order, reverse: bool, s: seq<MailboxEntry>)
    requires AllKeyed(s) && s != []
    ensures AllKeyed(s[1..])
    ensures Sort(order, reverse, s) == Insert(order, reverse, s[0], Sort(order, reverse, s[1..]))
  {
    AllKeyedTail(s);
  }

  lemma InsertFront(order: Order, reverse: bool, x: MailboxEntry, s: seq<MailboxEntry>)
    requires Keyed(x.message) && AllKeyed(s)
    requires s == [] || Cmp(order, reverse, x, s[0]) <= 0
    ensures Insert(order, reverse, x, s) == [x] + s
  {
  }

  lemma InsertStep(order: Order, reverse: bool, x: MailboxEntry, s: seq<MailboxEntry>)
    requires Keyed(x.message) && AllKeyed(s)
    requires s != [] && Cmp(order, reverse, x, s[0]) > 0
    ensures AllKeyed(s[1..])
    ensures Insert(order, reverse, x, s) == [s[0]] + Insert(order, reverse, x, s[1..])
  {
    AllKeyedTail(s);
  }

  /** Inserting into a sorted list keeps it sorted. */
  lemma {:induction false} InsertSorted(order: Order, reverse: bool, x: MailboxEntry, s: seq<MailboxEntry>)
    requires Keyed(x.message) && AllKeyed(s) && Sorted(order, reverse, s)
    ensures Sorted(order, reverse, Insert(order, reverse, x, s))
  {
    if s != [] && Cmp(order, reverse, x, s[0]) > 0 {
      var rest := Insert(order, reverse, x, s[1..]);
      InsertSorted(order, reverse, x, s[1..]);
      CmpIsTotalPreorder(order, reverse, x, s[0], x);
      var r := [s[0]] + rest;
      forall i | 0 <= i < |r| - 1
        ensures Cmp(order, reverse, r[i], r[i + 1]) <= 0
      {
        if i > 0 {
          assert r[i] == rest[i - 1] && r[i + 1] == rest[i];
        }
      }
    }
  }

  /** Each sort leaves the list ordered by its key: non-decreasing, or non-increasing when reversed. */
  lemma {:induction false} SortIsSorted(order: Order, reverse: bool, s: seq<MailboxEntry>)
    requires AllKeyed(s)
    ensures Sorted(order, reverse, Sort(order, reverse, s))
  {
    if s != [] {
      SortIsSorted(order, reverse, s[1..]);
      InsertSorted(order, reverse, s[0], Sort(order, reverse, s[1..]));
    }
  }

  /** Sorted by the reversed comparator means non-increasing by the key. */
  lemma ReversedIsNonIncreasing(order: Order, s: seq<MailboxEntry>)
    requires AllKeyed(s) && Sorted(order, true, s)
    ensures forall i :: 0 <= i < |s| - 1 ==>
              Headers.Compare(Key(order, s[i].message), Key(order, s[i + 1].message)) >= 0
  {
    forall i | 0 <= i < |s| - 1
      ensures Headers.Compare(Key(order, s[i].message), Key(order, s[i + 1].message)) >= 0
    {
      CmpIsTotalPreorder(order, false, s[i], s[i + 1], s[i]);
    }
  }

  /** Ordered neighbours make the whole list ordered: any earlier element is at most any later one. */
  lemma {:induction false} SortedPairwise(order: Order, reverse: bool, s: seq<MailboxEntry>)
    requires AllKeyed(s) && Sorted(order, reverse, s)
    ensures forall i, j :: 0 <= i < j < |s| ==> Cmp(order, reverse, s[i], s[j]) <= 0
  {
    if s != [] {
      var t := s[1..];
      SortedTail(order, reverse, s);
      SortedPairwise(order, reverse, t);
      forall i, j | 0 <= i < j < |s|
        ensures Cmp(order, reverse, s[i], s[j]) <= 0
      {
        if i == 0 && j > 1 {
          assert s[1] == t[0] && s[j] == t[j - 1];
          CmpIsTotalPreorder(order, reverse, s[0], s[1], s[j]);
        } else if i > 0 {
          assert s[i] == t[i - 1] && s[j] == t[j - 1];
        }
      }
    }
  }

  /** Sorting a list that is already in order changes nothing; in particular sorting twice is sorting once. */
  lemma {:induction false} SortKeepsSorted(order: Order, reverse: bool, s: seq<MailboxEntry>)
    requires AllKeyed(s) && Sorted(order, reverse, s)
    ensures Sort(order, reverse, s) == s
  {
    if s != [] {
      var t := s[1..];
      SortedTail(order, reverse, s);
      SortKeepsSorted(order, reverse, t);
      SortUnfold(order, reverse, s);
      if t != [] {
        assert t[0] == s[1];
      }
      InsertFront(order, reverse, s[0], t);
      assert [s[0]] + t == s;
    }
  }

  lemma SortIsIdempotent(order: Order, reverse: bool, s: seq<MailboxEntry>)
    requires AllKeyed(s)
    ensures Sort(order, reverse, Sort(order, reverse, s)) == Sort(order, reverse, s)
  {
    SortIsSorted(order, reverse, s);
    SortKeepsSorted(order, reverse, Sort(order, reverse, s));
  }

  /**
   * The list after addMessage: the entry appended, then everything sorted by
   * date, latest first. The entry is in it once more than before, and the
   * list is in order.
   */
  function Added(s: seq<MailboxEntry>, e: MailboxEntry): (r: seq<MailboxEntry>)
    requires AllValid(s) && AllKeyed(s) && ValidMessage(e.message)
    ensures AllValid(r) && AllKeyed(r)
    ensures |r| == |s| + 1 && e in r
    ensures multiset(r) == multiset(s) + multiset{e}
    ensures Sorted(ByDate, true, r)
  {
    ValidIsKeyed(e.message);
    var t := s + [e];
    SortPermutes(ByDate, true, t);
    SortIsSorted(ByDate, true, t);
    PermutedKeepsValid(t, Sort(ByDate, true, t));
    assert e in multiset(Sort(ByDate, true, t));
    Sort(ByDate, true, t)
  }

  /** The list without its element at `i`: ArrayList.remove(int). */
  function RemoveAt(s: seq<MailboxEntry>, i: nat): (r: seq<MailboxEntry>)
    requires i < |s|
    ensures |r| == |s| - 1
    ensures forall j :: 0 <= j < i ==> r[j] == s[j]
    ensures forall j :: i <= j < |r| ==> r[j] == s[j + 1]
    ensures multiset(r) + multiset{s[i]} == multiset(s)
  {
    assert s == s[..i] + [s[i]] + s[i + 1..];
    s[..i] + s[i + 1..]
  }

  class Mailbox {
    /** The entries, in the order of the last sort. */
    var messages: seq<MailboxEntry>

    predicate Valid()
      reads this
    {
      AllValid(messages) && AllKeyed(messages)
    }

    /**
     * Mailbox(Storage.Box): the box's entries with their messages, in the
     * order the box lists them. Reading and parsing the files is not modelled:
     * the entries arrive already paired with their messages.
     */
    constructor (loaded: seq<MailboxEntry>)
      requires AllValid(loaded)
      ensures Valid() && messages == loaded
    {
      AllValidIsKeyed(loaded);
      messages := loaded;
    }

    /** size: how many entries there are. */
    method Size() returns (n: nat)
      ensures n == |messages|
    {
      n := |messages|;
    }

    /** read: the message at `index`, or IllegalArgument outside 0 .. size - 1. */
    method Read(index: int) returns (r: Result<Message>)
      requires Valid()
      ensures r.Ok? <==> 0 <= index < |messages|
      ensures r.Ok? ==> r.value == messages[index].message && ValidMessage(r.value)
      ensures r.Err? ==> r.error == IllegalArgument
    {
      if index < 0 || index >= |messages| {
        return Err(IllegalArgument);
      }
      r := Ok(messages[index].message);
    }

    /** messages.sort(comparator), or messages.sort(comparator.reversed()). */
    method SortBy(order: Order, reverse: bool)
      requires Valid()
      modifies this
      ensures Valid()
      ensures messages == Sort(order, reverse, old(messages))
      ensures multiset(messages) == multiset(old(messages))
      ensures Sorted(order, reverse, messages)
    {
      var sorted := Sort(order, reverse, messages);
      SortIsSorted(order, reverse, messages);
      SortPermutes(order, reverse, messages);
      PermutedKeepsValid(messages, sorted);
      messages := sorted;
    }

    method DateOrder(reverse: bool)
      requires Valid()
      modifies this
      ensures Valid()
      ensures messages == Sort(ByDate, reverse, old(messages))
      ensures Sorted(ByDate, reverse, messages)
    {
      SortBy(ByDate, reverse);
    }

    method SenderOrder(reverse: bool)
      requires Valid()
      modifies this
      ensures Valid()
      ensures messages == Sort(BySender, reverse, old(messages))
      ensures Sorted(BySender, reverse, messages)
    {
      SortBy(BySender, reverse);
    }

    method RecipientsOrder(reverse: bool)
      requires Valid()
      modifies this
      ensures Valid()
      ensures messages == Sort(ByRecipients, reverse, old(messages))
      ensures Sorted(ByRecipients, reverse, messages)
    {
      SortBy(ByRecipients, reverse);
    }

    method SubjectOrder(reverse: bool)
      requires Valid()
      modifies this
      ensures Valid()
      ensures messages == Sort(BySubject, reverse, old(messages))
      ensures Sorted(BySubject, reverse, messages)
    {
      SortBy(BySubject, reverse);
    }

    /**
     * delete: an index outside 0 .. size - 1 fails with IllegalArgument; then
     * the entry's file is deleted, which `storageDeleted` reports. When that
     * fails nothing changes and the answer is false; otherwise exactly the
     * entry at `index` leaves the list and the answer is true.
     */
    method Delete(index: int, storageDeleted: bool) returns (r: Result<bool>)
      requires Valid()
      modifies this
      ensures Valid()
      ensures r.Ok? <==> 0 <= index < old(|messages|)
      ensures r.Err? ==> r.error == IllegalArgument && messages == old(messages)
      ensures r == Ok(false) ==> !storageDeleted && messages == old(messages)
      ensures r == Ok(true) ==> storageDeleted && messages == RemoveAt(old(messages), index)
      ensures r.Ok? ==> r.value == storageDeleted
    {
      if index < 0 || index >= |messages| {
        return Err(IllegalArgument);
      }
      if !storageDeleted {
        return Ok(false);
      }
      messages := RemoveAt(messages, index);
      r := Ok(true);
    }

    /**
     * addMessage: the message is stored as its text (toSequence), which fails
     * when it does not render or is not ASCII, leaving the list as it was;
     * `entry` is the storage entry the store hands back. The entry is then
     * appended and the list sorted by date, latest first.
     */
    method AddMessage(c: Codec, m: Message, entry: EntryToken) returns (r: Result<()>)
      requires Valid() && ValidMessage(m)
      modifies this
      ensures Valid()
      ensures r.Ok? <==> MessageSequence(c, m).Ok?
      ensures r.Err? ==> r.error == MessageSequence(c, m).error && messages == old(messages)
      ensures r.Ok? ==> messages == Added(old(messages), MailboxEntry(entry, m))
    {
      var text := MessageSequence(c, m);
      if text.Err? {
        return Err(text.error);
      }
      var e := MailboxEntry(entry, m);
      ValidIsKeyed(m);
      ghost var added := Added(messages, e);
      messages := messages + [e];
      DateOrder(true);
      assert messages == added;
      r := Ok(());
    }
  }
}
