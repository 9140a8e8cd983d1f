/** What the other end of a connection of the HTTP server reads out of the bytes that it gets: response after
    response, each cut off where its length says. */
module Peer {
  import opened Options
  import opened Sequences
  import opened HttpRequest
  import opened HttpResponse
  import opened HttpServing
  import opened Session
  import LogStream

  /** A response as the peer sees it. */
  datatype Got = Got(head: Head, body: string)

  function LengthOf(head: Head): Option<nat> {
    if "Content_Length" in head.fields && IsNumber(head.fields["Content_Length"])
    then Some(LogStream.Value(head.fields["Content_Length"]))
    else None
  }

  /** A response without a length ends with the stream. */
  function ReadAll(text: string): seq<Got>
    decreases |text|
  {
    var read := ReadResponse(text);
    if read.None? then []
    else
      var head, rest, length := read.value.head, read.value.rest, LengthOf(read.value.head);
      if length.None? || length.value > |rest| then [Got(head, rest)]
      else [Got(head, rest[..length.value])] + ReadAll(rest[length.value..])
  }

  /** The texts of the replies from the one at `i` on. */
  function TextFrom(replies: seq<Reply>, i: nat): string
    requires i <= |replies|
    decreases |replies| - i
  {
    if i == |replies| then "" else ReplyText(replies[i]) + TextFrom(replies, i + 1)
  }

  predicate CleanReply(reply: Reply) {
    reply.Answer? ==> CleanResponse(reply.response)
  }

  /** The peer has read this reply: status, header lines and body. */
  ghost predicate ReadsAs(got: Got, reply: Reply) {
    match reply
    case BadRequest => got == Got(Head("HTTP/1.1", 400, "Bad Request", map[]), "")
    case Answer(_, r) =>
      && got.head.version == "HTTP/1.1" && got.head.statusCode == r.statusCode
      && got.head.statusMessage == r.statusMessage && FieldsFit(got.head.fields, r) && got.body == r.body
  }

  lemma ReadAllOf(text: string, head: Head, body: string, tail: string)
    requires ReadResponse(text) == Some(Received(head, body + tail))
    requires if LengthOf(head).None? then tail == "" else LengthOf(head).value == |body|
    ensures ReadAll(text) == [Got(head, body)] + (if LengthOf(head).None? then [] else ReadAll(tail))
  {
    assert (body + tail)[..|body|] == body && (body + tail)[|body|..] == tail;
    assert tail == "" ==> body + tail == body;
  }

  lemma FirstReadsBack(reply: Reply, tail: string) returns (got: Got)
    requires CleanReply(reply) && (Closing(reply) ==> tail == "")
    ensures ReadsAs(got, reply)
    ensures ReadAll(ReplyText(reply) + tail) == [got] + (if Closing(reply) then [] else ReadAll(tail))
  {
    hide ReadResponse, ReadAll, ResponseText, CleanResponse, IsNumber, LogStream.Value;
    var text := ReplyText(reply) + tail;
    match reply {
      case BadRequest =>
        BadRequestReadsBack("");
        got := Got(Head("HTTP/1.1", 400, "Bad Request", map[]), "");
        assert "" + tail == tail;
        ReadAllOf(text, got.head, "", tail);
      case Answer(_, r) =>
        CleanResponseReadsBack(r, tail);
        got := Got(ReadResponse(text).value.head, r.body);
        ReadAllOf(text, got.head, r.body, tail);
    }
  }

  /** The replies from the one at `i` on are read. */
  ghost predicate ReadFrom(got: seq<Got>, replies: seq<Reply>, i: nat) {
    |got| + i == |replies| && forall j | i <= j < |replies| :: ReadsAs(got[j - i], replies[j])
  }

  lemma ReadOneMore(got: Got, behind: seq<Got>, replies: seq<Reply>, i: nat)
    requires i < |replies| && ReadsAs(got, replies[i]) && ReadFrom(behind, replies, i + 1)
    ensures ReadFrom([got] + behind, replies, i)
  {
  }

  /** Every reply of a sequence in which only the last may close is read back, each from its own bytes. */
  lemma {:induction false} RepliesReadBack(replies: seq<Reply>, i: nat)
    requires i <= |replies| && forall j | i <= j < |replies| :: CleanReply(replies[j])
    requires forall j | i <= j < |replies| && Closing(replies[j]) :: j == |replies| - 1
    ensures ReadFrom(ReadAll(TextFrom(replies, i)), replies, i)
    decreases |replies| - i
  {
    hide ReadAll, ReadsAs, CleanReply, Closing, ReplyText;
    if i == |replies| {
      NothingToRead();
    } else {
      RepliesReadBack(replies, i + 1);
      var first := FirstReadsBack(replies[i], TextFrom(replies, i + 1));
      if i == |replies| - 1 {
        NothingToRead();
      }
      ReadOneMore(first, ReadAll(TextFrom(replies, i + 1)), replies, i);
    }
  }

  lemma NothingToRead()
    ensures ReadAll("") == []
  {
  }

  // ---------------------------------------------------------------- bytes and texts

  /** The text of bytes. */
  function Text(bytes: seq<Byte>): (s: string)
    ensures |s| == |bytes|
  {
    seq(|bytes|, i requires 0 <= i < |bytes| => bytes[i] as char)
  }

  /** The source's characters are bytes. */
  predicate Narrow(s: string) {
    forall i | 0 <= i < |s| :: s[i] < 256 as char
  }

  lemma OctetsReadBack(s: string)
    requires Narrow(s)
    ensures Text(Octets(s)) == s
  {
  }

  lemma OctetsConcat(a: string, b: string)
    ensures Octets(a + b) == Octets(a) + Octets(b)
  {
  }

  lemma {:induction false} PrintedIsText(replies: seq<Reply>, i: nat)
    requires i <= |replies|
    ensures Printed(replies) == Printed(replies[..i]) + Octets(TextFrom(replies, i))
    decreases |replies| - i
  {
    hide Printed, ReplyText, Octets;
    if i == |replies| {
      assert replies[..i] == replies;
      assert Octets("") == [];
    } else {
      var text := ReplyText(replies[i]);
      PrintedIsText(replies, i + 1);
      assert replies[..i + 1] == replies[..i] + [replies[i]];
      PrintedSnoc(replies[..i], replies[i]);
      OctetsConcat(text, TextFrom(replies, i + 1));
      Assoc(Printed(replies[..i]), Octets(text), Octets(TextFrom(replies, i + 1)));
    }
  }

  lemma PrintedWhole(replies: seq<Reply>)
    ensures Printed(replies) == Octets(TextFrom(replies, 0))
  {
    PrintedIsText(replies, 0);
    assert |replies[..0]| == 0;
  }

  lemma {:induction false} TextsAreNarrow(replies: seq<Reply>, i: nat)
    requires i <= |replies| && forall j | i <= j < |replies| :: Narrow(ReplyText(replies[j]))
    ensures Narrow(TextFrom(replies, i))
    decreases |replies| - i
  {
    hide ReplyText;
    if i < |replies| {
      TextsAreNarrow(replies, i + 1);
    }
  }

  // ---------------------------------------------------------------- main result

  predicate Readable(replies: seq<Reply>) {
    && (forall i | 0 <= i < |replies| :: CleanReply(replies[i]) && Narrow(ReplyText(replies[i])))
    && (forall i | 0 <= i < |replies| && Closing(replies[i]) :: i == |replies| - 1)
  }

  lemma PrintedReadsBack(replies: seq<Reply>)
    requires Readable(replies)
    ensures ReadFrom(ReadAll(Text(Printed(replies))), replies, 0)
  {
    hide ReadAll, ReadFrom, CleanReply, Narrow, ReplyText, Printed, Octets, TextFrom, Closing;
    PrintedWhole(replies);
    TextsAreNarrow(replies, 0);
    OctetsReadBack(TextFrom(replies, 0));
    RepliesReadBack(replies, 0);
  }

  lemma RepliesAreReadable(r: Request, es: seq<Event>)
    requires forall reply | reply in Run(r, es).serving.replies :: CleanReply(reply) && Narrow(ReplyText(reply))
    ensures Readable(Run(r, es).serving.replies)
  {
    hide CleanReply, Narrow, ReplyText, Closing, RunTo;
    NothingAfterAClosingReply(r, es, |es|);
  }

  lemma AllIsTaken(r: Request, es: seq<Event>)
    requires AllWhole(r, es, |es|) && Run(r, es).stream.out == []
    ensures Run(r, es).stream.taken == Printed(Run(r, es).serving.replies)
  {
    AnswersReachTheKernel(r, es);
  }

  /** In every run of a connection in which every reply was kept whole and the kernel has taken everything, the
      peer reads exactly the replies, in order, each with its status, its header lines and its body, if no status
      message and no body type holds a CRLF. */
  lemma PeerReadsTheReplies(r: Request, es: seq<Event>)
    requires AllWhole(r, es, |es|) && Run(r, es).stream.out == []
    requires forall reply | reply in Run(r, es).serving.replies :: CleanReply(reply) && Narrow(ReplyText(reply))
    ensures var replies, got := Run(r, es).serving.replies, ReadAll(Text(Run(r, es).stream.taken));
            |got| == |replies| && forall i | 0 <= i < |got| :: ReadsAs(got[i], replies[i])
  {
    hide ReadAll, Readable, CleanReply, Narrow, ReplyText, Printed, Text, Run, AllWhole, ReadsAs;
    AllIsTaken(r, es);
    RepliesAreReadable(r, es);
    PrintedReadsBack(Run(r, es).serving.replies);
  }
}
