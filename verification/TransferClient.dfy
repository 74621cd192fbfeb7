/** np-lab6/client.cpp: cutting files into fragments and the acknowledgement bookkeeping. */
module TransferClient {
  import opened Numbers
  import opened TransferText
  import opened TransferServer

  datatype File = File(name: string, content: string)

  const FRAGMENT := 1000

  /** The full blocks of a file and a shorter last one when the size is no multiple of 1000. */
  function Blocks(content: string): seq<string> {
    if content == [] then []
    else if |content| < FRAGMENT then [content]
    else [content[..FRAGMENT]] + Blocks(content[FRAGMENT..])
  }

  /** The fragments of a file; a file below 1000 bytes, also an empty one, is one fragment. */
  function Fragments(content: string): seq<string> {
    if |content| < FRAGMENT then [content] else Blocks(content)
  }

  lemma {:induction false} BlocksConcat(content: string)
    ensures Concat(Blocks(content)) == content
    ensures forall i :: 0 <= i < |Blocks(content)| ==> |Blocks(content)[i]| <= FRAGMENT
    ensures |Blocks(content)| == (|content| + FRAGMENT - 1) / FRAGMENT
  {
    if |content| >= FRAGMENT {
      var rest := content[FRAGMENT..];
      BlocksConcat(rest);
      assert Blocks(content)[1..] == Blocks(rest);
      assert content[..FRAGMENT] + rest == content;
    } else if content != [] {
      assert Concat([content]) == content + Concat([content][1..]);
    }
  }

  /** Fragmenting loses nothing: the fragments concatenate to the file, none is longer than 1000
      bytes and there is at least one. */
  lemma {:induction false} FragmentsConcat(content: string)
    ensures Concat(Fragments(content)) == content
    ensures |Fragments(content)| > 0
    ensures forall i :: 0 <= i < |Fragments(content)| ==> |Fragments(content)[i]| <= FRAGMENT
  {
    BlocksConcat(content);
    if |content| < FRAGMENT {
      assert Concat([content]) == content + Concat([content][1..]);
    }
  }

  lemma {:induction false} BlocksAt(content: string, i: nat)
    requires i < |Blocks(content)|
    ensures 1000 * i < |content|
    ensures Blocks(content)[i] == content[1000 * i..Min(1000 * (i + 1), |content|)]
  {
    if |content| >= FRAGMENT && i > 0 {
      var rest := content[FRAGMENT..];
      BlocksAt(rest, i - 1);
      assert Blocks(content)[i] == Blocks(rest)[i - 1];
      hide Blocks;
      var end := Min(1000 * i, |rest|);
      assert Min(1000 * (i + 1), |content|) == end + 1000;
      assert rest[1000 * (i - 1)..end] == content[1000 * i..end + 1000];
    } else {
      assert i == 0;
    }
  }

  /** Where a fragment stands in its file: fragment i is the i-th thousand of bytes, only the last may be
      shorter, and there are as many as the size needs, but one for an empty file. */
  lemma {:induction false} FragmentAt(content: string, i: nat)
    requires i < |Fragments(content)|
    ensures |Fragments(content)| == if content == [] then 1 else (|content| + 999) / 1000
    ensures Fragments(content)[i] == content[1000 * i..Min(1000 * (i + 1), |content|)]
    ensures i + 1 < |Fragments(content)| ==> |Fragments(content)[i]| == 1000
  {
    BlocksConcat(content);
    if |content| >= FRAGMENT {
      BlocksAt(content, i);
    }
  }

  lemma {:induction false} BlocksAppend(head: string, last: string)
    requires |head| % FRAGMENT == 0 && 0 < |last| <= FRAGMENT
    ensures Blocks(head + last) == Blocks(head) + [last]
  {
    var all := head + last;
    if head == [] {
      assert all == last;
      if |last| == FRAGMENT {
        assert last[..FRAGMENT] == last && last[FRAGMENT..] == [];
      }
    } else {
      assert |head| >= FRAGMENT;
      assert all[..FRAGMENT] == head[..FRAGMENT];
      assert all[FRAGMENT..] == head[FRAGMENT..] + last;
      BlocksAppend(head[FRAGMENT..], last);
    }
  }

  /** The reading loop of client.cpp:108-132; each fread advances the file position. */
  method ReadFragments(file: string) returns (content: seq<string>)
    ensures content == Fragments(file)
  {
    content := [];
    if |file| < FRAGMENT {
      content := content + [file];
      assert content == [file];
    } else {
      var n := |file| / FRAGMENT;
      var pos := 0;
      for i := 0 to n
        invariant pos == FRAGMENT * i <= |file|
        invariant content == Blocks(file[..pos])
      {
        var read := file[pos..pos + FRAGMENT];
        BlocksAppend(file[..pos], read);
        assert file[..pos] + read == file[..pos + FRAGMENT];
        content := content + [read];
        pos := pos + FRAGMENT;
      }
      if |file| % FRAGMENT != 0 {
        var read := file[pos..pos + (|file| - FRAGMENT * n)];
        BlocksAppend(file[..pos], read);
        assert file[..pos] + read == file;
        content := content + [read];
      } else {
        assert file[..pos] == file;
      }
    }
  }

  // ----- acknowledgement bookkeeping -----

  datatype Book = Book(acked: map<(int, int), int>, sendFailed: map<(int, int), string>, termFlag: bool)

  const EMPTY_BOOK := Book(map[], map[], false)

  predicate IsAcked(b: Book, seqNum: int, offset: int) {
    (seqNum, offset) in b.acked && b.acked[(seqNum, offset)] != 0
  }

  /** `ACKed[{seq_num, offset}]` inserts a zero when the key is missing. */
  function Looked(b: Book, seqNum: int, offset: int): Book {
    if (seqNum, offset) in b.acked then b else b.(acked := b.acked[(seqNum, offset) := 0])
  }

  /** What the client does with the bytes it received (none: the empty text) after sending msg. */
  function Heard(b: Book, seqNum: int, offset: int, msg: string, text: string): Book {
    var r := ParseReply(text);
    var word := if r.Some? then r.value.word else "";
    if word == "terminate" then b.(termFlag := true)
    else
      var b1 := if word == "ACK" then b.(acked := b.acked[(r.value.seqNum, r.value.offset) := 1]) else b;
      if (seqNum, offset) in b1.acked then b1 else b1.(sendFailed := b1.sendFailed[(seqNum, offset) := msg])
  }

  class Client {
    var acked: map<(int, int), int>
    var sendFailed: map<(int, int), string>
    var termFlag: bool

    ghost function View(): Book
      reads this
    {
      Book(acked, sendFailed, termFlag)
    }

    constructor ()
      ensures View() == EMPTY_BOOK
    {
      acked, sendFailed, termFlag := map[], map[], false;
    }

    /** The test at the top of the fragment loop (client.cpp:141). */
    method Skips(seqNum: int, offset: int) returns (skip: bool)
      modifies this`acked
      ensures View() == Looked(old(View()), seqNum, offset)
      ensures skip == IsAcked(old(View()), seqNum, offset)
    {
      if (seqNum, offset) !in acked {
        acked := acked[(seqNum, offset) := 0];
      }
      skip := acked[(seqNum, offset)] != 0;
    }

    /** The rest of the loop body after `recvfrom` (client.cpp:151-166). */
    method Hear(seqNum: int, offset: int, msg: string, text: string)
      modifies this
      ensures View() == Heard(old(View()), seqNum, offset, msg, text)
    {
      var r := ParseReply(text);
      var word := if r.Some? then r.value.word else "";
      if word == "terminate" {
        termFlag := true;
        return;
      }
      if word == "ACK" {
        acked := acked[(r.value.seqNum, r.value.offset) := 1];
      }
      if (seqNum, offset) !in acked {
        sendFailed := sendFailed[(seqNum, offset) := msg];
      }
    }
  }
}
