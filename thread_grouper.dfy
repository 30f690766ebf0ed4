/** The thread grouper: turns the rows of a Slack channel export into one
    knowledge-base record per thread parent, holding the parent's timestamp,
    its text and the newline-joined texts of its replies. */
module ThreadGrouper {
  import opened Wrappers
  import opened Sequences

  /** One exported message. A null (NaN) thread_ts cell is None. */
  datatype Message = Message(timestamp: string, threadTs: Option<string>, text: string)

  /** One output row: parent_timestamp, parent_text, child_text. */
  datatype Record = Record(parentTimestamp: string, parentText: string, childText: string)

  /** The parent mask: no thread_ts, an empty thread_ts, or a thread_ts equal
      to the message's own timestamp (a thread root). */
  predicate IsParent(m: Message)
  {
    match m.threadTs
    case None => true
    case Some(t) => t == "" || m.timestamp == t
  }

  /** The child mask: a non-null, non-empty thread_ts that differs from the
      message's own timestamp. It is exactly the complement of the parent
      mask. */
  function IsChild(m: Message): (b: bool)
    ensures b <==> !IsParent(m)
  {
    m.threadTs.Some? && m.threadTs.value != "" && m.timestamp != m.threadTs.value
  }

  /** parent_df: the rows selected by the parent mask, in input order. */
  function ParentRows(rows: seq<Message>): seq<Message>
  {
    Filter(rows, IsParent)
  }

  /** child_df: the rows selected by the child mask, in input order. */
  function ChildRows(rows: seq<Message>): seq<Message>
  {
    Filter(rows, IsChild)
  }

  /** The rows among children whose thread_ts equals ts. */
  function RepliesTo(children: seq<Message>, ts: string): seq<Message>
  {
    Filter(children, (m: Message) => m.threadTs == Some(ts))
  }

  /** The replies of the thread rooted at timestamp ts, read straight off the
      input rows: child rows whose thread_ts is ts, in input order. */
  function ThreadOf(rows: seq<Message>, ts: string): seq<Message>
  {
    Filter(rows, (m: Message) => IsChild(m) && m.threadTs == Some(ts))
  }

  function Texts(ms: seq<Message>): seq<string>
  {
    seq(|ms|, i requires 0 <= i < |ms| => ms[i].text)
  }

  /** The record the grouper emits for parent p given the child rows. */
  function RecordFor(p: Message, children: seq<Message>): Record
  {
    Record(p.timestamp, p.text, Join(Texts(RepliesTo(children, p.timestamp)), '\n'))
  }

  /** The grouper's output: one record per parent row, in parent order. */
  function Grouped(rows: seq<Message>): seq<Record>
  {
    var parents := ParentRows(rows);
    var children := ChildRows(rows);
    seq(|parents|, k requires 0 <= k < |parents| => RecordFor(parents[k], children))
  }

  /** The grouping loop: for each parent, in order, gather the texts of the
      child rows whose thread_ts is the parent's timestamp, join them with
      newlines and append the record to the result. */
  method GroupThreads(rows: seq<Message>) returns (result: seq<Record>)
    ensures result == Grouped(rows)
  {
    var parents := ParentRows(rows);
    var children := ChildRows(rows);
    result := [];
    var i := 0;
    while i < |parents|
      invariant 0 <= i <= |parents|
      invariant |result| == i
      invariant forall k :: 0 <= k < i ==> result[k] == RecordFor(parents[k], children)
    {
      var parent := parents[i];
      var replies := RepliesTo(children, parent.timestamp);
      var childText := Join(Texts(replies), '\n');
      result := result + [Record(parent.timestamp, parent.text, childText)];
      i := i + 1;
    }
  }

  /** Every input row lands in exactly one of parent_df and child_df: the two
      selections together hold every row exactly once. */
  lemma PartitionRows(rows: seq<Message>)
    ensures multiset(ParentRows(rows)) + multiset(ChildRows(rows)) == multiset(rows)
  {
    FilterPartition(rows, IsParent, IsChild);
  }

  /** A row is in exactly one of the two selections. */
  lemma RowClassified(rows: seq<Message>, m: Message)
    requires m in rows
    ensures m in ParentRows(rows) <==> IsParent(m)
    ensures m in ChildRows(rows) <==> !IsParent(m)
  {
    FilterMember(rows, IsParent, m);
    FilterMember(rows, IsChild, m);
  }

  /** A row with a null or empty thread_ts, or whose thread_ts equals its own
      timestamp (a thread root), is a parent and never a child. */
  lemma ParentCases(rows: seq<Message>, m: Message)
    requires m in rows
    requires m.threadTs == None || m.threadTs == Some("") || m.threadTs == Some(m.timestamp)
    ensures m in ParentRows(rows) && m !in ChildRows(rows)
  {
    RowClassified(rows, m);
  }

  /** The parent selection keeps input order: it distributes over
      concatenation of the input. */
  lemma ParentOrder(a: seq<Message>, b: seq<Message>)
    ensures ParentRows(a + b) == ParentRows(a) + ParentRows(b)
  {
    FilterAppend(a, b, IsParent);
  }

  /** Selecting the replies of ts among child_df gives the child rows of the
      input whose thread_ts is ts, in input order. */
  lemma RepliesInInputOrder(rows: seq<Message>, ts: string)
    ensures RepliesTo(ChildRows(rows), ts) == ThreadOf(rows, ts)
  {
    FilterFilter(rows, IsChild, (m: Message) => m.threadTs == Some(ts),
                 (m: Message) => IsChild(m) && m.threadTs == Some(ts));
  }

  /** The output has exactly one record per parent row, in parent order; each
      record copies the parent's timestamp and text, and its child text is
      the newline-join of the texts of the parent's replies in input order. */
  lemma GroupedRecords(rows: seq<Message>)
    ensures |Grouped(rows)| == |ParentRows(rows)|
    ensures forall k :: 0 <= k < |Grouped(rows)| ==>
      var p := ParentRows(rows)[k];
      Grouped(rows)[k].parentTimestamp == p.timestamp &&
      Grouped(rows)[k].parentText == p.text &&
      Grouped(rows)[k].childText == Join(Texts(ThreadOf(rows, p.timestamp)), '\n')
  {
    forall k | 0 <= k < |ParentRows(rows)|
      ensures Grouped(rows)[k].childText == Join(Texts(ThreadOf(rows, ParentRows(rows)[k].timestamp)), '\n')
    {
      RepliesInInputOrder(rows, ParentRows(rows)[k].timestamp);
    }
  }

  /** A message belongs to the thread of ts exactly when it is an input row,
      a child, and its thread_ts is ts. */
  lemma ThreadMember(rows: seq<Message>, ts: string, m: Message)
    ensures m in ThreadOf(rows, ts) <==> m in rows && IsChild(m) && m.threadTs == Some(ts)
  {
    FilterMember(rows, (m: Message) => IsChild(m) && m.threadTs == Some(ts), m);
  }

  /** A parent without replies gets an empty child text. */
  lemma NoRepliesEmptyText(rows: seq<Message>, k: nat)
    requires k < |ParentRows(rows)|
    requires forall m :: m in rows && IsChild(m) ==> m.threadTs != Some(ParentRows(rows)[k].timestamp)
    ensures Grouped(rows)[k].childText == ""
  {
    var ts := ParentRows(rows)[k].timestamp;
    GroupedRecords(rows);
    if ThreadOf(rows, ts) != [] {
      ThreadMember(rows, ts, ThreadOf(rows, ts)[0]);
      assert false;
    }
  }

  /** A child row whose thread_ts names no parent's timestamp is among the
      replies of no record. */
  lemma OrphanIgnored(rows: seq<Message>, m: Message)
    requires m in ChildRows(rows)
    requires forall p :: p in ParentRows(rows) ==> m.threadTs != Some(p.timestamp)
    ensures forall k :: 0 <= k < |ParentRows(rows)| ==>
      m !in ThreadOf(rows, Grouped(rows)[k].parentTimestamp)
  {
  }

  /** The texts of a thread's replies can be read back from its child text
      when none of those replies contains a newline. */
  lemma ChildTextRoundTrip(rows: seq<Message>, k: nat)
    requires k < |ParentRows(rows)|
    requires ThreadOf(rows, ParentRows(rows)[k].timestamp) != []
    requires forall m :: m in ThreadOf(rows, ParentRows(rows)[k].timestamp) ==> '\n' !in m.text
    ensures Split(Grouped(rows)[k].childText, '\n') == Texts(ThreadOf(rows, ParentRows(rows)[k].timestamp))
  {
    var thread := ThreadOf(rows, ParentRows(rows)[k].timestamp);
    GroupedRecords(rows);
    forall j | 0 <= j < |thread| ensures '\n' !in Texts(thread)[j] {
      assert thread[j] in thread;
    }
    SplitJoin(Texts(thread), '\n');
  }
}
