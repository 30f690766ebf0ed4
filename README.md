# Slack export to knowledge-base transforms, in Dafny

Two batch transforms turn a Slack channel's CSV export into input for a
Dify knowledge base. This project models them over already-parsed rows.

- **Thread grouper** (`thread_grouper.dfy`, module `ThreadGrouper`). It
  splits messages into thread parents and replies with two complementary
  masks over `thread_ts` and `timestamp`. It then emits one record
  `(parent_timestamp, parent_text, child_text)` per parent, in input order.
  `child_text` is the newline-join of the texts of the parent's replies. The
  masks, the selected rows and the expected output (`Grouped`) are functions.
  The grouping loop is the method `GroupThreads`, proved equal to `Grouped`.
  Lemmas state the partition, order and content properties.
- **Fixed-size CSV splitter** (`csv_splitter.dfy`, module `CsvSplitter`). It
  reads the header row, buffers data rows, and flushes a chunk (header plus
  buffered rows) each time the buffer reaches `rowsPerFile`. A final partial
  chunk is flushed if rows are left. `SplitFile` is that loop. Files become
  `Chunk(index, header, rows)` values appended to an output sequence.
  Its contract says that the chunks are numbered 1, 2, ... and all carry the
  header, and that every chunk but the last is full while none is empty. It
  also says that their rows concatenate back to the input's data rows and
  that there are ceil(n / rowsPerFile) of them.
- `sequences.dfy` (module `Sequences`) holds the generic row filter (a pandas
  boolean mask) and `Join` (Python's `str.join`). It also holds `Split`, an
  inverse of `Join` used to state that a child text can be read back.
- `wrappers.dfy` holds `Option` (a null `thread_ts`) and `Result` (a missing
  header).

## Model

| member | source | states |
|---|---|---|
| ThreadGrouper.IsChild | slack-messages-knowledge.py:7-18 | the child mask holds of a message exactly when the parent mask does not |
| ThreadGrouper.PartitionRows | slack-messages-knowledge.py:7-18 | parent_df and child_df together hold every input row exactly once (multiset union equals the input) |
| ThreadGrouper.RowClassified | slack-messages-knowledge.py:7-18 | an input row is in parent_df iff it satisfies the parent mask, and in child_df iff it does not |
| ThreadGrouper.ParentCases | slack-messages-knowledge.py:8-10 | a row with null or empty thread_ts, or with thread_ts equal to its own timestamp, is in parent_df and not in child_df |
| ThreadGrouper.ParentOrder | slack-messages-knowledge.py:7-11 | parent selection keeps input order: it distributes over concatenation of the input |
| ThreadGrouper.RepliesInInputOrder | slack-messages-knowledge.py:26 | the replies taken from child_df for a timestamp are the input's child rows with that thread_ts, in input order |
| ThreadGrouper.ThreadMember | slack-messages-knowledge.py:14-18 | a message is a reply of timestamp ts iff it is an input row, a child, and its thread_ts is ts |
| ThreadGrouper.GroupThreads | slack-messages-knowledge.py:21-32 | the loop's result equals the specification Grouped: one record per parent, built from that parent and its replies |
| ThreadGrouper.GroupedRecords | slack-messages-knowledge.py:22-32 | exactly one record per parent row, in parent order; timestamp and text copied from the parent; child_text is the newline-join of the reply texts in input order |
| ThreadGrouper.NoRepliesEmptyText | slack-messages-knowledge.py:26-27 | a parent that no child row points to gets the empty child_text |
| ThreadGrouper.OrphanIgnored | slack-messages-knowledge.py:14-18 | a child whose thread_ts names no parent's timestamp is among the replies of no record |
| ThreadGrouper.ChildTextRoundTrip | slack-messages-knowledge.py:27 | when none of the parent's replies has a newline in its text, splitting a non-empty child_text at newlines gives back the reply texts |
| Sequences.SplitJoin | slack-messages-knowledge.py:27 | splitting the newline-join of one or more parts gives back the parts when none of them contains the separator |
| Sequences.JoinSplit | slack-messages-knowledge.py:27 | joining the pieces of a split gives back the string |
| CsvSplitter.SplitFile | slack-messages-knowledge/slack-messages-separate.py:6-24 | an empty file fails for lack of a header; otherwise the chunks are numbered from 1, each carries the header, each but the last holds exactly rowsPerFile rows, none is empty, their rows concatenate to the rows after the header, and their number is ceil(data rows / rowsPerFile), so zero data rows give no chunk |
| CsvSplitter.ChunkContents | slack-messages-knowledge/slack-messages-separate.py:11-24 | closed form of chunk k: its rows are data rows k*rowsPerFile up to (k+1)*rowsPerFile (up to the end for the last chunk), and its file is the header followed by exactly those rows |
| CsvSplitter.FlattenAround | slack-messages-knowledge/slack-messages-separate.py:11-24 | the data rows of chunk k come after those of the chunks before it and before those of the chunks after it |
| CsvSplitter.FlattenLength | slack-messages-knowledge/slack-messages-separate.py:13-19 | well-formed chunks hold (count - 1) * rowsPerFile rows plus the last chunk's rows |
| CsvSplitter.ChunkCount | slack-messages-knowledge/slack-messages-separate.py:13-24 | the number of well-formed chunks is the ceiling of their row count over rowsPerFile |

## Left out

- CSV parsing and writing, quoting, encodings and file-system I/O. Input is a sequence of parsed rows, and output is a sequence of records or chunks.
- Output file names and the placeholder input and output paths. Only the chunk index is kept.
- ThreadGrouper.Message.text: an empty text cell is read by pandas as NaN (a float), not as an empty string. A reply with empty text, such as one carrying only an attachment, makes the newline-join raise a TypeError and aborts the whole script. A parent with empty text is carried into the record as NaN, which `to_csv` writes as an empty cell, the same as the model's empty string. The model takes text to be a string, joins such a reply as the empty string and carries on, so it does not capture that error path.
- pandas dtype coercion. For example, timestamps may be read as floats, and NaN compares unequal to everything. `thread_ts` is `Option<string>`, and timestamps are compared as strings.
- The hard-coded `rows_per_file = 30`. It is the parameter `rowsPerFile`, required to be positive, so the zero case that the constant never reaches is not modelled.
- The Slack and Dify bot scripts elsewhere in the repository (event handling, HTTP streaming, S3 and Notion calls) are not part of this model.
