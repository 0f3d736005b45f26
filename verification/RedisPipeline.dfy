/** Writer and reader together: the output buffer of `hiredis.c` and its way back through the reader. */
module RedisPipeline {
  import opened ByteStrings
  import opened Resp
  import opened SdsBuffer
  import opened RedisCommand
  import RedisReader
  import W = RespWire

  /** `redisAppendCommandArgv`: formats a command and appends it to the output buffer. */
  method AppendCommandArgv(obuf: Sds, argv: seq<Bytes>)
    requires obuf.Valid() && InRange(argv)
    modifies obuf, obuf.buf
    ensures obuf.Valid() && (obuf.buf == old(obuf.buf) || fresh(obuf.buf))
    ensures obuf.Contents() == old(obuf.Contents()) + Command(argv)
  {
    var cmd, len := FormatSdsCommandArgv(argv);
    obuf.CatLen(cmd.buf[..len]);
  }

  lemma {:induction false} CommandsSnoc(argvs: seq<seq<Bytes>>, i: nat)
    requires i < |argvs|
    ensures Commands(argvs[..i + 1]) == Commands(argvs[..i]) + Command(argvs[i])
  {
    if i == 0 {
      assert argvs[..1] == [argvs[0]];
      assert Commands([argvs[0]]) == Command(argvs[0]) + Commands([]);
    } else {
      CommandsSnoc(argvs[1..], i - 1);
      assert argvs[..i + 1][1..] == argvs[1..][..i];
      assert argvs[..i][1..] == argvs[1..][..i - 1];
    }
  }

  /** The output buffer after a pipeline of commands. */
  method AppendAll(argvs: seq<seq<Bytes>>) returns (out: Bytes)
    requires forall argv | argv in argvs :: InRange(argv)
    ensures out == Commands(argvs)
  {
    var obuf := new Sds();
    var i := 0;
    while i < |argvs|
      invariant 0 <= i <= |argvs| && obuf.Valid() && fresh(obuf) && fresh(obuf.buf)
      invariant obuf.Contents() == Commands(argvs[..i])
    {
      AppendCommandArgv(obuf, argvs[i]);
      CommandsSnoc(argvs, i);
      i := i + 1;
    }
    assert argvs[..|argvs|] == argvs;
    out := obuf.buf[..obuf.len];
  }

  /**
   A pipeline written to the output buffer and cut into pieces of any lengths comes out of the
   reader as one array for each command, in order and with its arguments unchanged.
   */
  method Loopback(argvs: seq<seq<Bytes>>, lengths: seq<nat>) returns (replies: seq<Reply>, error: Option<ProtocolError>)
    requires forall argv | argv in argvs :: InRange(argv)
    ensures error == None && replies == Arrays(argvs)
  {
    var out := AppendAll(argvs);
    var chunks := Pieces(out, lengths);
    replies, error := RedisReader.Run(chunks);
    ReadCommands(argvs);
  }

  /**
   Replies that a server sends, cut into pieces of any lengths, come out of the reader as they are meant; a byte
   behind them that is no type byte is then the error.
   */
  method Receive(ws: seq<W.Wire>, lengths: seq<nat>, bad: Option<Byte>)
    returns (replies: seq<Reply>, error: Option<ProtocolError>)
    requires W.AllPrintable(ws) && W.DepthAll(ws) <= MAX_DEPTH
    requires bad.Some? ==> !W.IsTypeByte(bad.value)
    ensures replies == W.MeaningAll(ws)
    ensures error == if bad.Some? then Some(BadTypeByte(bad.value)) else None
  {
    var tail := if bad.Some? then [bad.value] else [];
    replies, error := RedisReader.Run(Pieces(W.PrintAll(ws) + tail, lengths));
    if bad.Some? {
      W.StreamStops(ws, bad.value, []);
      assert [bad.value] + [] == tail;
    } else {
      W.StreamRead(ws, []);
      assert W.MeaningAll(ws) + [] == W.MeaningAll(ws);
    }
  }

  /** Pieces of the given lengths, as far as `s` has them, and then the rest. */
  function Pieces(s: Bytes, lengths: seq<nat>): (chunks: seq<Bytes>)
    ensures Concat(chunks) == s
  {
    if lengths == [] || lengths[0] > |s| then
      assert s + Concat([]) == s;
      [s]
    else
      [s[..lengths[0]]] + Pieces(s[lengths[0]..], lengths[1..])
  }
}
