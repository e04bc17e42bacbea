/** engine/llama.go: the `LlamaEngine` that fetches embeddings and relays a
    streamed chat completion line by line to a callback. */
module Llama {
  import opened Common
  import opened Strings
  import opened Model
  import opened Bufio

  // ---------------------------------------------------------------------------
  // Lines of a streamed body
  // ---------------------------------------------------------------------------

  /** A line as `ReadString('\n')` returns it: ends with its only '\n'. */
  predicate IsLine(l: string)
  {
    |l| > 0 && l[|l| - 1] == '\n' && forall k :: 0 <= k < |l| - 1 ==> l[k] != '\n'
  }

  /** The complete '\n'-terminated lines of `s` from position `i` on, in order,
      each with its '\n'. */
  function LinesFrom(s: string, i: nat): seq<string>
    requires i <= |s|
    decreases |s| - i
  {
    var j := IndexFrom(s, '\n', i);
    if j == |s| then [] else [s[i..j + 1]] + LinesFrom(s, j + 1)
  }

  /** What follows the last '\n' of `s` (from position `i` on): a fragment
      that is never a line. */
  function TailFrom(s: string, i: nat): string
    requires i <= |s|
    decreases |s| - i
  {
    var j := IndexFrom(s, '\n', i);
    if j == |s| then s[i..] else TailFrom(s, j + 1)
  }

  /** The lines of a whole body. */
  function Lines(s: string): seq<string>
  {
    LinesFrom(s, 0)
  }

  /** The fragment after the last '\n' of a whole body. */
  function Tail(s: string): string
  {
    TailFrom(s, 0)
  }

  /** The text from position `i` up to the next '\n' is a line. */
  lemma LineAt(s: string, i: nat)
    requires i <= |s| && IndexFrom(s, '\n', i) < |s|
    ensures IsLine(s[i..IndexFrom(s, '\n', i) + 1])
  {
    IndexFromFirst(s, '\n', i);
  }

  /** The first line from position `i` and what follows it. */
  lemma LinesFromStep(s: string, i: nat)
    requires i <= |s| && IndexFrom(s, '\n', i) < |s|
    ensures var j := IndexFrom(s, '\n', i);
      && IsLine(s[i..j + 1])
      && LinesFrom(s, i) == [s[i..j + 1]] + LinesFrom(s, j + 1)
      && TailFrom(s, i) == TailFrom(s, j + 1)
  {
    LineAt(s, i);
  }

  /** The unfolding of LinesFrom and TailFrom at a '\n'. */
  lemma LinesFromUnfold(s: string, i: nat)
    requires i <= |s| && IndexFrom(s, '\n', i) < |s|
    ensures var j := IndexFrom(s, '\n', i);
      && LinesFrom(s, i) == [s[i..j + 1]] + LinesFrom(s, j + 1)
      && TailFrom(s, i) == TailFrom(s, j + 1)
  {
  }

  /** Without '\n' from position `i` on, there is no line and all is tail. */
  lemma LinesFromNone(s: string, i: nat)
    requires i <= |s| && IndexFrom(s, '\n', i) == |s|
    ensures LinesFrom(s, i) == [] && TailFrom(s, i) == s[i..] && '\n' !in s[i..]
  {
    IndexFromFirst(s, '\n', i);
    assert forall m :: i <= m < |s| ==> s[m] == s[i..][m - i];
  }

  /** A first string glued in front of lines that, with their tail, make `rest`. */
  lemma GlueLines(ls: seq<string>, t: string, l: string, more: seq<string>, t': string, rest: string, whole: string)
    requires ls == [l] + more && t == t' && Concat(more) + t' == rest && l + rest == whole
    ensures Concat(ls) + t == whole
  {
    ConcatGlue(l, more, t', rest);
  }

  /** One step of the decomposition below: the first line glued in front of
      the decomposition of the rest. */
  lemma ConcatLinesStep(s: string, i: nat)
    requires i <= |s| && IndexFrom(s, '\n', i) < |s|
    requires var j := IndexFrom(s, '\n', i);
      Concat(LinesFrom(s, j + 1)) + TailFrom(s, j + 1) == s[j + 1..]
    ensures Concat(LinesFrom(s, i)) + TailFrom(s, i) == s[i..]
  {
    var j := IndexFrom(s, '\n', i);
    LinesFromUnfold(s, i);
    SliceSplit(s, i, j + 1);
    GlueLines(LinesFrom(s, i), TailFrom(s, i), s[i..j + 1], LinesFrom(s, j + 1), TailFrom(s, j + 1), s[j + 1..], s[i..]);
  }

  /** From position `i`, the lines followed by the tail give back `s[i..]`. */
  lemma {:induction false} ConcatLinesFrom(s: string, i: nat)
    requires i <= |s|
    ensures Concat(LinesFrom(s, i)) + TailFrom(s, i) == s[i..]
    decreases |s| - i
  {
    var j := IndexFrom(s, '\n', i);
    if j < |s| {
      ConcatLinesFrom(s, j + 1);
      ConcatLinesStep(s, i);
    } else {
      LinesFromNone(s, i);
    }
  }

  /** Every piece LinesFrom returns is a line, and the tail holds no '\n'. */
  lemma {:induction false} LinesFromShape(s: string, i: nat)
    requires i <= |s|
    ensures forall k :: 0 <= k < |LinesFrom(s, i)| ==> IsLine(LinesFrom(s, i)[k])
    ensures '\n' !in TailFrom(s, i)
    decreases |s| - i
  {
    var j := IndexFrom(s, '\n', i);
    if j < |s| {
      LinesFromStep(s, i);
      LinesFromShape(s, j + 1);
      var more := LinesFrom(s, j + 1);
      var ls := LinesFrom(s, i);
      forall k | 0 <= k < |ls|
        ensures IsLine(ls[k])
      {
        if k > 0 {
          assert ls[k] == more[k - 1];
        }
      }
    } else {
      LinesFromNone(s, i);
    }
  }

  /** Lines cuts a body into lines followed by a tail without '\n'. */
  lemma LinesDecompose(s: string)
    ensures forall i :: 0 <= i < |Lines(s)| ==> IsLine(Lines(s)[i])
    ensures Concat(Lines(s)) + Tail(s) == s
    ensures '\n' !in Tail(s)
  {
    LinesFromShape(s, 0);
    ConcatLinesFrom(s, 0);
    SliceSplit(s, 0, 0);
  }

  /** The first '\n' at or after `i` is the last character of the line that starts there. */
  lemma FirstNewline(s: string, i: nat, l: string)
    requires i + |l| <= |s| && IsLine(l) && s[i..i + |l|] == l
    ensures IndexFrom(s, '\n', i) == i + |l| - 1
  {
    assert s[i + |l| - 1] == l[|l| - 1];
    assert forall m :: i <= m < i + |l| - 1 ==> s[m] == l[m - i];
    IndexFromAt(s, '\n', i, i + |l| - 1);
  }

  /** No '\n' from `i` on, when what is there is a fragment without '\n'. */
  lemma NoNewline(s: string, i: nat)
    requires i <= |s| && '\n' !in s[i..]
    ensures IndexFrom(s, '\n', i) == |s|
  {
    assert forall m :: i <= m < |s| ==> s[m] == s[i..][m - i];
    IndexFromAt(s, '\n', i, |s|);
  }

  /** A line sitting at position `i` is the first line read from there. */
  lemma LinesFromAt(s: string, i: nat, l: string)
    requires i + |l| <= |s| && IsLine(l) && s[i..i + |l|] == l
    ensures LinesFrom(s, i) == [l] + LinesFrom(s, i + |l|)
    ensures TailFrom(s, i) == TailFrom(s, i + |l|)
  {
    FirstNewline(s, i, l);
    LinesFromStep(s, i);
  }

  // ---------------------------------------------------------------------------
  // Delivery of lines to the callback
  // ---------------------------------------------------------------------------

  /** The callback of `GetCompletions`: given the lines it was handed before and
      the current line, nil or an error. Seeing the earlier lines lets it stand
      for any deterministic callback with state. */
  type Callback = (seq<string>, string) -> Option<Error>

  /** The lines handed to the callback: those already handed over (`sent`), then
      the next ones in order, up to and including the first it fails on. */
  function Deliver(lines: seq<string>, callback: Callback, sent: seq<string>): seq<string>
    decreases |lines|
  {
    if lines == [] then sent
    else if callback(sent, lines[0]).Some? then sent + [lines[0]]
    else Deliver(lines[1..], callback, sent + [lines[0]])
  }

  /** The lines handed to the callback when `lines` are read from the start. */
  function Delivered(lines: seq<string>, callback: Callback): seq<string>
  {
    Deliver(lines, callback, [])
  }

  /** Delivery ended because the callback failed on the last line handed over. */
  predicate Stopped(delivered: seq<string>, callback: Callback)
  {
    delivered != [] && callback(delivered[..|delivered| - 1], delivered[|delivered| - 1]).Some?
  }

  lemma {:induction false} DeliverShape(lines: seq<string>, callback: Callback, sent: seq<string>)
    ensures var d := Deliver(lines, callback, sent);
      && |sent| <= |d| <= |sent| + |lines|
      && d == sent + lines[..|d| - |sent|]
      && (forall k :: |sent| <= k < |d| - 1 ==> callback(d[..k], d[k]).None?)
      && (|d| < |sent| + |lines| ==> |d| > |sent| && Stopped(d, callback))
    decreases |lines|
  {
    if lines != [] {
      var next := sent + [lines[0]];
      if callback(sent, lines[0]).None? {
        DeliverShape(lines[1..], callback, next);
        var d := Deliver(lines, callback, sent);
        assert d == Deliver(lines[1..], callback, next);
        assert d == sent + lines[..|d| - |sent|] by {
          assert d == next + lines[1..][..|d| - |next|];
          assert lines[..|d| - |sent|] == [lines[0]] + lines[1..][..|d| - |next|];
        }
        assert d[..|sent|] == sent;
        assert |sent| < |d| ==> d[|sent|] == lines[0];
      } else {
        var d := sent + [lines[0]];
        assert d[..|d| - 1] == sent;
        assert lines[..1] == [lines[0]];
      }
    } else {
      assert sent + lines[..0] == sent;
    }
  }

  /** The lines handed to the callback are the first lines of the stream, in
      order; every call before the last succeeded; and fewer than all lines are
      handed over only when the callback failed on the last one. */
  lemma DeliveredSpec(lines: seq<string>, callback: Callback)
    ensures var d := Delivered(lines, callback);
      && |d| <= |lines| && d == lines[..|d|]
      && (forall k :: 0 <= k < |d| - 1 ==> callback(d[..k], d[k]).None?)
      && (|d| < |lines| ==> Stopped(d, callback))
  {
    DeliverShape(lines, callback, []);
  }

  lemma {:induction false} DeliverAllOk(lines: seq<string>, callback: Callback, sent: seq<string>)
    requires forall k :: 0 <= k < |lines| ==> callback(sent + lines[..k], lines[k]).None?
    ensures Deliver(lines, callback, sent) == sent + lines
    decreases |lines|
  {
    if lines != [] {
      assert sent + lines[..0] == sent;
      var next := sent + [lines[0]];
      forall k | 0 <= k < |lines[1..]|
        ensures callback(next + lines[1..][..k], lines[1..][k]).None?
      {
        assert next + lines[1..][..k] == sent + lines[..k + 1];
      }
      DeliverAllOk(lines[1..], callback, next);
      assert next + lines[1..] == sent + lines;
    }
  }

  /** When the callback accepts every line, every line is handed over. */
  lemma DeliveredAllOk(lines: seq<string>, callback: Callback)
    requires forall k :: 0 <= k < |lines| ==> callback(lines[..k], lines[k]).None?
    ensures Delivered(lines, callback) == lines
    ensures !Stopped(lines, callback)
  {
    forall k | 0 <= k < |lines|
      ensures callback([] + lines[..k], lines[k]).None?
    {
      assert [] + lines[..k] == lines[..k];
    }
    DeliverAllOk(lines, callback, []);
    if lines != [] {
      assert lines[..|lines| - 1] == lines[..|lines| - 1];
    }
  }

  /** Moving the first line over to the lines already handed over keeps every prefix. */
  lemma ShiftPrefix(lines: seq<string>, sent: seq<string>, j: nat)
    requires j < |lines|
    ensures (sent + [lines[0]]) + lines[1..][..j] == sent + lines[..j + 1]
  {
  }

  lemma {:induction false} DeliverFirstFailure(lines: seq<string>, callback: Callback, sent: seq<string>, k: nat)
    requires k < |lines|
    requires forall j :: 0 <= j < k ==> callback(sent + lines[..j], lines[j]).None?
    requires callback(sent + lines[..k], lines[k]).Some?
    ensures Deliver(lines, callback, sent) == sent + lines[..k + 1]
    decreases k
  {
    assert sent + lines[..0] == sent;
    if k > 0 {
      var next := sent + [lines[0]];
      forall j | 0 <= j < k - 1
        ensures callback(next + lines[1..][..j], lines[1..][j]).None?
      {
        ShiftPrefix(lines, sent, j);
      }
      ShiftPrefix(lines, sent, k - 1);
      DeliverFirstFailure(lines[1..], callback, next, k - 1);
      ShiftPrefix(lines, sent, k);
    }
  }

  /** When the callback first fails on line `k`, exactly lines 0..k are handed over. */
  lemma DeliveredUpToFirstFailure(lines: seq<string>, callback: Callback, k: nat)
    requires k < |lines|
    requires forall j :: 0 <= j < k ==> callback(lines[..j], lines[j]).None?
    requires callback(lines[..k], lines[k]).Some?
    ensures Delivered(lines, callback) == lines[..k + 1]
    ensures Stopped(lines[..k + 1], callback)
  {
    forall j | 0 <= j <= k
      ensures [] + lines[..j] == lines[..j]
    {
    }
    DeliverFirstFailure(lines, callback, [], k);
    assert lines[..k + 1][..k] == lines[..k];
  }

  /** What reaches the callback is a prefix of the body cut into whole lines; the
      fragment after the last '\n' never does. */
  lemma DeliveredPrefixOfBody(body: string, callback: Callback)
    ensures var d := Delivered(Lines(body), callback);
      && (forall i :: 0 <= i < |d| ==> IsLine(d[i]))
      && |Concat(d)| <= |body| && Concat(d) == body[..|Concat(d)|]
      && |Concat(d)| <= |body| - |Tail(body)|
  {
    var ls := Lines(body);
    var d := Delivered(ls, callback);
    LinesDecompose(body);
    DeliveredSpec(ls, callback);
    assert ls == d + ls[|d|..];
    ConcatAppend(d, ls[|d|..]);
    assert body == Concat(d) + (Concat(ls[|d|..]) + Tail(body));
  }

  // ---------------------------------------------------------------------------
  // The engine
  // ---------------------------------------------------------------------------

  /** `llamaEmbeddings`: the model name and one vector per entry of the
      response; `None` is Go's nil slice. */
  datatype Embeddings<F> = Embeddings(model: string, embeddings: Option<seq<seq<F>>>)

  datatype Message = Message(role: string, content: string)

  /** `llamaCompletionRequest`; the float32 temperature is opaque. */
  datatype CompletionRequest<F> = CompletionRequest(messages: seq<Message>, stream: bool, temperature: F)

  /** The HTTP exchange that opens a completion stream: given the URL and the
      request, the text the response body yields before it ends, or the error
      of encoding, building or sending the request. */
  type CompletionConnect<!F> = (string, CompletionRequest<F>) -> Result<string>

  /** `LlamaEngine`: the addresses of the completion and embedding servers. */
  class LlamaEngine {
    var LlamaServer: string
    var EmbedServer: string

    /** `NewLlamaEngine(es, ls)`: the first address is the embedding server,
        the second the completion server. */
    constructor NewLlamaEngine(es: string, ls: string)
      ensures EmbedServer == es && LlamaServer == ls
    {
      EmbedServer := es;
      LlamaServer := ls;
    }

    /** `GetEmbeddings`: posts `input` to `<EmbedServer>/v1/embeddings`; on
        success, copies the vector of every entry of `data`, in order, and keeps
        the model name; the entries' `index` fields play no part. */
    method GetEmbeddings<F>(input: string, fetch: EmbedFetch<F>) returns (result: Result<Embeddings<F>>)
      ensures var response := fetch(EmbedServer + "/v1/embeddings", EmbedRequest(input));
        && (response.Failure? ==> result == Failure(response.error))
        && (response.Success? ==>
              && result.Success?
              && result.value.model == response.value.model
              && (response.value.data == [] <==> result.value.embeddings.None?))
      ensures var response := fetch(EmbedServer + "/v1/embeddings", EmbedRequest(input));
        response.Success? && result.value.embeddings.Some? ==>
          var data, vectors := response.value.data, result.value.embeddings.value;
          && |vectors| == |data|
          && forall i :: 0 <= i < |data| ==> vectors[i] == data[i].embedding
    {
      var response := fetch(EmbedServer + "/v1/embeddings", EmbedRequest(input));
      if response.Failure? {
        return Failure(response.error);
      }
      var data := response.value.data;
      var embeds := Embeddings(response.value.model, None);
      var dataLen := |data|;
      if dataLen > 0 {
        var vectors := new seq<F>[dataLen];
        for i := 0 to dataLen
          invariant forall k :: 0 <= k < i ==> vectors[k] == data[k].embedding
        {
          vectors[i] := [];
          vectors[i] := vectors[i] + data[i].embedding;
        }
        embeds := embeds.(embeddings := Some(vectors[..]));
      }
      return Success(embeds);
    }

    /** `GetCompletions` as written: opens the stream at
        `<LlamaServer>/v1/chat/completions`, then hands each line read to the
        callback until a read or the callback fails. Inside the loop `err` is a
        new variable, so the callback's error never reaches the `err` that is
        returned: once the stream is open the result is nil. `delivered` are
        the lines the callback was given, in order; `consumed` is how much of
        the body the reader took. */
    method GetCompletions<F>(data: CompletionRequest<F>, callback: Callback, connect: CompletionConnect<F>)
      returns (err: Option<Error>, delivered: seq<string>, ghost consumed: nat)
      ensures var conn := connect(LlamaServer + "/v1/chat/completions", data);
        && (conn.Failure? ==> err == Some(conn.error) && delivered == [])
        && (conn.Success? ==> err == None && delivered == Delivered(Lines(conn.value), callback))
      ensures var conn := connect(LlamaServer + "/v1/chat/completions", data);
        conn.Success? ==>
          consumed == if Stopped(delivered, callback) then |Concat(delivered)| else |conn.value|
    {
      var conn := connect(LlamaServer + "/v1/chat/completions", data);
      if conn.Failure? {
        return Some(conn.error), [], 0;
      }
      var body := conn.value;
      err := None;
      delivered := [];
      var reader := new LineReader(body);
      while true
        invariant reader.Valid() && reader.data == body
        invariant Deliver(LinesFrom(body, reader.pos), callback, delivered) == Delivered(Lines(body), callback)
        invariant reader.pos == |Concat(delivered)|
        invariant err == None && !Stopped(delivered, callback)
        decreases |body| - reader.pos
      {
        var stream, err := reader.ReadString();
        if err.Some? {
          break;
        }
        err := callback(delivered, stream);
        DeliverOne(delivered, stream);
        delivered := delivered + [stream];
        if err.Some? {
          break;
        }
      }
      consumed := reader.pos;
      return err, delivered, consumed;
    }

    /** `GetCompletions` as evidently intended: the same loop, with the
        callback's error assigned to the `err` that is returned. */
    method GetCompletionsPropagating<F>(data: CompletionRequest<F>, callback: Callback, connect: CompletionConnect<F>)
      returns (err: Option<Error>, delivered: seq<string>)
      ensures var conn := connect(LlamaServer + "/v1/chat/completions", data);
        && (conn.Failure? ==> err == Some(conn.error) && delivered == [])
        && (conn.Success? ==>
              && delivered == Delivered(Lines(conn.value), callback)
              && (err.Some? <==> Stopped(delivered, callback))
              && (err.Some? ==> err == callback(delivered[..|delivered| - 1], delivered[|delivered| - 1])))
    {
      var conn := connect(LlamaServer + "/v1/chat/completions", data);
      if conn.Failure? {
        return Some(conn.error), [];
      }
      var body := conn.value;
      err := None;
      delivered := [];
      var reader := new LineReader(body);
      while true
        invariant reader.Valid() && reader.data == body
        invariant Deliver(LinesFrom(body, reader.pos), callback, delivered) == Delivered(Lines(body), callback)
        invariant reader.pos == |Concat(delivered)|
        invariant err == None && !Stopped(delivered, callback)
        decreases |body| - reader.pos
      {
        var stream, readErr := reader.ReadString();
        if readErr.Some? {
          break;
        }
        var sent := delivered;
        err := callback(sent, stream);
        DeliverOne(sent, stream);
        delivered := sent + [stream];
        if err.Some? {
          break;
        }
      }
    }
  }

  /** Handing over one more line: the concatenation grows by it, and the lines
      before it are what the callback saw as already handed over. */
  lemma DeliverOne(sent: seq<string>, line: string)
    ensures Concat(sent + [line]) == Concat(sent) + line
    ensures (sent + [line])[..|sent|] == sent && (sent + [line])[|sent|] == line
  {
    ConcatAppend(sent, [line]);
    assert Concat([line]) == line + Concat([]);
  }

  // ---------------------------------------------------------------------------
  // The shadowed `err` of `GetCompletions`
  // ---------------------------------------------------------------------------

  /** A callback that refuses every line it is handed. */
  function Refuse(sent: seq<string>, line: string): (err: Option<Error>)
    ensures err.Some?
  {
    Some(Error("refused"))
  }

  /** A body made of a single line holds just that line. */
  lemma LinesOfOneLine(l: string)
    requires IsLine(l)
    ensures Lines(l) == [l] && Tail(l) == ""
  {
    SliceSplit(l, 0, |l|);
    LinesFromAt(l, 0, l);
    LinesFromNone(l, |l|);
  }

  /** The callback refuses the only line of the stream, and `GetCompletions`
      still returns nil. */
  method CallbackErrorIsLost<F>(engine: LlamaEngine, data: CompletionRequest<F>, line: string)
    returns (err: Option<Error>, delivered: seq<string>)
    requires IsLine(line)
    ensures delivered == [line] && Stopped(delivered, Refuse)
    ensures err == None
  {
    ghost var consumed;
    err, delivered, consumed := engine.GetCompletions(data, Refuse, (url, request) => Success(line));
    LinesOfOneLine(line);
  }

  /** With the error assigned to the returned `err`, the same call reports the
      callback's error. */
  method CallbackErrorIsReported<F>(engine: LlamaEngine, data: CompletionRequest<F>, line: string)
    returns (err: Option<Error>, delivered: seq<string>)
    requires IsLine(line)
    ensures delivered == [line] && Stopped(delivered, Refuse)
    ensures err == Refuse([], line)
  {
    err, delivered := engine.GetCompletionsPropagating(data, Refuse, (url, request) => Success(line));
    LinesOfOneLine(line);
  }
}
