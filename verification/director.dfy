/** The director's bookkeeping in Director/director.py: a registry of
    connected agents keyed by their `agent_id`, each with a public status
    view that agent reports are merged into; the `host:port` address parse;
    job submission to an idle agent; the connection lifecycle; and the list
    of remembered agent addresses.

    Sockets are identities; what an agent sends, whether a send succeeds,
    the job file and JSON decoding are inputs. */
module Director {
  import opened Py
  import opened Text
  import opened Numerals
  import opened Framing

  /** `host:port` as split by the director. */
  datatype Address = Address(host: string, port: int)

  /** `host, port = s.split(':')` then `port = int(port)`: exactly one colon
      and a port `int()` accepts; anything else is the `ValueError` the
      director logs before giving up. */
  function ParseAddress(s: string): (r: Option<Address>)
    ensures r.Some? ==> Count(s, ':') == 1 && ':' !in r.value.host
    ensures r.Some? ==> |Split(s, ':')| == 2 && ParseInt(Split(s, ':')[1]) == Some(r.value.port)
  {
    var parts := Split(s, ':');
    SplitCount(s, ':');
    if |parts| != 2 then None
    else
      match ParseInt(parts[1])
      case None => None
      case Some(port) => Some(Address(parts[0], port))
  }

  /** A host without a colon and any port `str()` can print, read back
      from `host:port`. */
  lemma AddressRoundTrip(host: string, port: int)
    requires ':' !in host && Printable(port)
    ensures ParseAddress(host + ":" + IntToString(port)) == Some(Address(host, port))
  {
    var digits := IntToString(port);
    var s := host + ":" + digits;
    assert s == host + [':'] + digits;
    IntToStringChars(port, ':');
    var parts := Split(s, ':');
    assert parts == [host, digits] by {
      SplitAtFirst(host, digits, ':');
      SplitNoSep(digits, ':');
    }
    ParseIntToString(port);
    assert ParseInt(parts[1]) == Some(port);
  }

  /** Without exactly one colon an address is refused. */
  lemma AddressNeedsOneColon(s: string)
    requires Count(s, ':') != 1
    ensures ParseAddress(s) == None
  {
    SplitCount(s, ':');
  }

  /** One registered agent: its socket and the status view shown to the
      UI. */
  datatype Record = Record(sock: nat, public: Dict)

  /** `self.agents`, keyed by the agent's id as the agent gave it. */
  type Registry = map<Value, Record>

  /** The UI callbacks, in the order they fire. */
  datatype Event =
    | Connected(id: Value, public: Dict)
    | StatusUpdate(id: Value, update: Dict)
    | Disconnected(id: Value)

  /** `get_all_agents`: every agent's public view, by id. */
  function AllAgents(reg: Registry): (r: map<Value, Dict>)
    ensures r.Keys == reg.Keys
    ensures forall id :: id in r ==> r[id] == reg[id].public
  {
    map id | id in reg :: reg[id].public
  }

  /** The public view of a new record: `agent_id` and `ip`, then every field
      of the agent's first status laid over them. */
  function NewPublic(id: Value, addr: string, initial: Dict): (r: Dict)
    ensures r.Keys == initial.Keys + {"agent_id", "ip"}
    ensures forall k :: k in initial ==> r[k] == initial[k]
    ensures "agent_id" !in initial ==> r["agent_id"] == id
    ensures "ip" !in initial ==> r["ip"] == Str(addr)
  {
    Merge(map["agent_id" := id, "ip" := Str(addr)], initial)
  }

  /** `_update_agent_state`: the registry after the update, and the
      status-update callback, which fires whether or not the agent is
      registered. */
  function UpdateAgentState(reg: Registry, id: Value, update: Dict): (r: (Registry, Event))
    ensures r.1 == StatusUpdate(id, update)
    ensures r.0.Keys == reg.Keys
  {
    if id in reg then (reg[id := reg[id].(public := Merge(reg[id].public, update))], StatusUpdate(id, update))
    else (reg, StatusUpdate(id, update))
  }

  /** A registered agent's view takes every field of the update and keeps
      all its other fields; its socket and every other record stay as they
      were, and an unknown id changes nothing. */
  lemma UpdateMergesFields(reg: Registry, id: Value, update: Dict)
    ensures var r := UpdateAgentState(reg, id, update).0;
            id in reg ==> && r[id].sock == reg[id].sock
                          && r[id].public.Keys == reg[id].public.Keys + update.Keys
                          && (forall k :: k in update ==> r[id].public[k] == update[k])
                          && (forall k :: k in reg[id].public && k !in update ==> r[id].public[k] == reg[id].public[k])
    ensures var r := UpdateAgentState(reg, id, update).0;
            forall other :: other != id && other in reg ==> r[other] == reg[other]
    ensures id !in reg ==> UpdateAgentState(reg, id, update).0 == reg
  {
  }

  /** Applying an update twice is the same as once. */
  lemma UpdateIdempotent(reg: Registry, id: Value, update: Dict)
    ensures var once := UpdateAgentState(reg, id, update).0;
            UpdateAgentState(once, id, update).0 == once
  {
    var once := UpdateAgentState(reg, id, update).0;
    if id in reg {
      assert Merge(Merge(reg[id].public, update), update) == Merge(reg[id].public, update);
    }
  }

  /** The job file as the director finds it. */
  datatype JobFile =
    | Missing                           // `FileNotFoundError`
    | Contents(text: string, isJson: bool)  // its text, and whether it parses

  datatype Submitted =
    | NotConnected            // no such agent, or it is marked `Disconnected`
    | NotIdle                 // its status is anything but `Idle`
    | FileMissing
    | NotJson
    | SendFailed
    | Sent(sock: nat, text: string)  // the file's text went out unchanged

  function StatusOfAgent(rec: Record): Value
  {
    Get(rec.public, "status", Null)
  }

  /** `submit_job_to_agent`: a job goes out only to a registered agent whose
      status is `Idle`, only if the file exists and parses, and then as the
      file's exact text on that agent's socket. */
  function SubmitJob(reg: Registry, id: Value, file: JobFile, sendOk: bool): (r: Submitted)
    ensures r.Sent? <==> id in reg && StatusOfAgent(reg[id]) == Str("Idle") && file.Contents? && file.isJson && sendOk
    ensures r.Sent? ==> r == Sent(reg[id].sock, file.text)
    ensures r == NotConnected <==> id !in reg || StatusOfAgent(reg[id]) == Str("Disconnected")
    ensures r == NotIdle <==> id in reg && StatusOfAgent(reg[id]) != Str("Disconnected") && StatusOfAgent(reg[id]) != Str("Idle")
  {
    if id !in reg || StatusOfAgent(reg[id]) == Str("Disconnected") then NotConnected
    else if StatusOfAgent(reg[id]) != Str("Idle") then NotIdle
    else match file
      case Missing => FileMissing
      case Contents(text, isJson) =>
        if !isJson then NotJson
        else if !sendOk then SendFailed
        else Sent(reg[id].sock, text)
  }

  /** `json.loads` of one line, yielding an object, or `None` when the line
      does not decode to one. */
  type Decoder = string -> Option<Dict>

  /** The updates decoded from framed lines, in order, up to the first line
      that does not decode (the exception that ends the read loop), and
      whether every line decoded. */
  function Decoded(lines: seq<string>, decode: Decoder): (r: (seq<Dict>, bool))
    ensures |r.0| <= |lines|
    ensures forall i :: 0 <= i < |r.0| ==> decode(lines[i]) == Some(r.0[i])
    ensures r.1 <==> |r.0| == |lines|
    ensures !r.1 ==> decode(lines[|r.0|]).None?
    decreases |lines|
  {
    if |lines| == 0 then ([], true)
    else match decode(lines[0])
      case None => ([], false)
      case Some(update) =>
        var rest := Decoded(lines[1..], decode);
        ([update] + rest.0, rest.1)
  }

  lemma {:induction false} DecodedAppend(a: seq<string>, b: seq<string>, decode: Decoder)
    ensures Decoded(a + b, decode)
              == if Decoded(a, decode).1 then (Decoded(a, decode).0 + Decoded(b, decode).0, Decoded(b, decode).1)
                 else Decoded(a, decode)
    decreases |a|
  {
    if |a| == 0 {
      assert a + b == b;
      assert [] + Decoded(b, decode).0 == Decoded(b, decode).0;
    } else {
      assert (a + b)[0] == a[0] && (a + b)[1..] == a[1..] + b;
      if decode(a[0]).Some? {
        DecodedAppend(a[1..], b, decode);
        var u := decode(a[0]).value;
        var da := Decoded(a[1..], decode);
        assert Decoded(a, decode) == ([u] + da.0, da.1);
        if da.1 {
          assert [u] + da.0 + Decoded(b, decode).0 == [u] + (da.0 + Decoded(b, decode).0);
        }
      }
    }
  }

  /** `_update_agent_state` for each update in turn. */
  function ApplyAll(reg: Registry, id: Value, updates: seq<Dict>): (r: Registry)
    ensures r.Keys == reg.Keys
    decreases |updates|
  {
    if |updates| == 0 then reg else ApplyAll(UpdateAgentState(reg, id, updates[0]).0, id, updates[1..])
  }

  lemma {:induction false} ApplyAllAppend(reg: Registry, id: Value, a: seq<Dict>, b: seq<Dict>)
    ensures ApplyAll(reg, id, a + b) == ApplyAll(ApplyAll(reg, id, a), id, b)
    decreases |a|
  {
    if |a| == 0 {
      assert a + b == b;
    } else {
      assert (a + b)[0] == a[0] && (a + b)[1..] == a[1..] + b;
      ApplyAllAppend(UpdateAgentState(reg, id, a[0]).0, id, a[1..], b);
    }
  }

  /** Updates for one agent leave every other record alone. */
  lemma {:induction false} ApplyAllFrame(reg: Registry, id: Value, updates: seq<Dict>)
    ensures forall other :: other != id && other in reg ==> ApplyAll(reg, id, updates)[other] == reg[other]
    decreases |updates|
  {
    if |updates| > 0 {
      UpdateMergesFields(reg, id, updates[0]);
      ApplyAllFrame(UpdateAgentState(reg, id, updates[0]).0, id, updates[1..]);
    }
  }

  /** The status-update callbacks for a sequence of updates. */
  function StatusUpdates(id: Value, updates: seq<Dict>): (r: seq<Event>)
    ensures |r| == |updates| && forall i :: 0 <= i < |updates| ==> r[i] == StatusUpdate(id, updates[i])
  {
    if |updates| == 0 then [] else [StatusUpdate(id, updates[0])] + StatusUpdates(id, updates[1..])
  }

  /** Registry, callbacks, and whether every line decoded. */
  datatype Applied = Applied(reg: Registry, events: seq<Event>, ok: bool)

  /** Handling a batch of framed lines: each decoded update is applied and
      announced in order until a line fails to decode. */
  function ApplyLines(reg: Registry, id: Value, lines: seq<string>, decode: Decoder): (r: Applied)
    ensures r.reg.Keys == reg.Keys
    ensures |r.events| <= |lines|
    ensures r.ok <==> forall i :: 0 <= i < |lines| ==> decode(lines[i]).Some?
  {
    var d := Decoded(lines, decode);
    Applied(ApplyAll(reg, id, d.0), StatusUpdates(id, d.0), d.1)
  }

  /** The read loop: each received chunk is buffered and drained, and the
      lines are applied until one fails to decode. */
  function ReadLoop(reg: Registry, id: Value, buffer: string, chunks: seq<string>, decode: Decoder): (r: Applied)
    ensures r.reg.Keys == reg.Keys
    decreases |chunks|
  {
    if |chunks| == 0 then Applied(reg, [], true)
    else
      var (lines, rest) := Drain(buffer + chunks[0]);
      var applied := ApplyLines(reg, id, lines, decode);
      if !applied.ok then applied
      else
        var more := ReadLoop(applied.reg, id, rest, chunks[1..], decode);
        Applied(more.reg, applied.events + more.events, more.ok)
  }

  /** The read loop applies exactly the framed lines of everything received,
      in order, stopping at the first that does not decode, however the
      stream was chunked. */
  lemma {:induction false} ReadLoopAppliesFramedLines(reg: Registry, id: Value, buffer: string, chunks: seq<string>, decode: Decoder)
    requires '\n' !in buffer
    ensures ReadLoop(reg, id, buffer, chunks, decode) == ApplyLines(reg, id, FeedAll(buffer, chunks).0, decode)
    decreases |chunks|
  {
    if |chunks| == 0 {
      assert Drain(buffer) == ([], buffer);
    } else {
      var (lines, rest) := Drain(buffer + chunks[0]);
      var d := Decoded(lines, decode);
      var more := FeedAll(rest, chunks[1..]).0;
      DecodedAppend(lines, more, decode);
      if d.1 {
        ReadLoopAppliesFramedLines(ApplyAll(reg, id, d.0), id, rest, chunks[1..], decode);
        var e := Decoded(more, decode);
        ApplyAllAppend(reg, id, d.0, e.0);
        StatusUpdatesAppend(id, d.0, e.0);
      }
    }
  }

  lemma StatusUpdatesAppend(id: Value, a: seq<Dict>, b: seq<Dict>)
    ensures StatusUpdates(id, a + b) == StatusUpdates(id, a) + StatusUpdates(id, b)
  {
  }

  /** The read loop leaves every other agent's record alone. */
  lemma {:induction false} ReadLoopFrame(reg: Registry, id: Value, buffer: string, chunks: seq<string>, decode: Decoder)
    ensures forall other :: other != id && other in reg ==> ReadLoop(reg, id, buffer, chunks, decode).reg[other] == reg[other]
    decreases |chunks|
  {
    if |chunks| > 0 {
      var (lines, rest) := Drain(buffer + chunks[0]);
      var d := Decoded(lines, decode);
      ApplyAllFrame(reg, id, d.0);
      if d.1 {
        ReadLoopFrame(ApplyAll(reg, id, d.0), id, rest, chunks[1..], decode);
      }
    }
  }

  /** What dialling the agent gives: a refusal, or the socket with the text
      of the first `recv` and of every later one up to the end of the
      stream. Those later chunks are never empty: an empty `recv` is the end
      of the stream, where the read loop stops. */
  datatype Dial = Refused | Opened(sock: nat, greeting: string, chunks: seq<string>)

  /** The id the director files an agent under: the `agent_id` of its first
      status, else the address it was dialled at. */
  function AgentId(initial: Dict, addr: string): (id: Value)
    ensures "agent_id" in initial ==> id == initial["agent_id"]
    ensures "agent_id" !in initial ==> id == Str(addr)
  {
    Get(initial, "agent_id", Str(addr))
  }

  /** The first line of the first `recv`, surrounding whitespace removed. */
  function FirstLine(greeting: string): (line: string)
    ensures '\n' !in line
  {
    Split(Strip(greeting), '\n')[0]
  }

  /** Registration: the record replaces any earlier one under the same id. */
  function Register(reg: Registry, id: Value, sock: nat, addr: string, initial: Dict): (r: (Registry, Event))
    ensures id in r.0 && r.0[id] == Record(sock, NewPublic(id, addr, initial))
    ensures forall other :: other != id ==> (other in r.0 <==> other in reg)
    ensures forall other :: other != id && other in reg ==> r.0[other] == reg[other]
    ensures r.1 == Connected(id, NewPublic(id, addr, initial))
  {
    var public := NewPublic(id, addr, initial);
    (reg[id := Record(sock, public)], Connected(id, public))
  }

  /** The `finally` block as written: the record is removed and the UI told
      only when the learned id is truthy; an agent whose id is `""`, `null`,
      `0` or `false` stays listed after its connection is gone. */
  function TeardownAsWritten(reg: Registry, id: Option<Value>): (r: (Registry, seq<Event>))
    ensures id.Some? && Truthy(id.value) ==> r == (reg - {id.value}, [Disconnected(id.value)])
    ensures !(id.Some? && Truthy(id.value)) ==> r == (reg, [])
  {
    if id.Some? && Truthy(id.value) then (reg - {id.value}, [Disconnected(id.value)]) else (reg, [])
  }

  /** The `finally` block as intended: once an id was learned its record is
      removed, whatever its value, and the UI is told. */
  function Teardown(reg: Registry, id: Option<Value>): (r: (Registry, seq<Event>))
    ensures id.Some? ==> id.value !in r.0 && r.1 == [Disconnected(id.value)]
    ensures id.Some? ==> forall other :: other in reg && other != id.value ==> other in r.0 && r.0[other] == reg[other]
    ensures id.None? ==> r == (reg, [])
    ensures r.0.Keys <= reg.Keys
  {
    if id.Some? then (reg - {id.value}, [Disconnected(id.value)]) else (reg, [])
  }

  /** The result of one connection's lifetime. */
  datatype Lifetime = Lifetime(reg: Registry, events: seq<Event>, id: Option<Value>)

  /** An agent is registered once its address parses, the dial succeeds,
      the first line of its first message decodes, and the id it gives can
      key the registry. An id that is a list or an object makes the
      assignment into `self.agents` raise `TypeError`, which no clause
      catches; the `finally` block then either skips the empty id or raises
      again on `agent_id in self.agents`, so nothing is registered and no
      callback fires. */
  predicate Registers(addr: string, dial: Dial, decode: Decoder)
  {
    && ParseAddress(addr).Some?
    && dial.Opened?
    && decode(FirstLine(dial.greeting)).Some?
    && Hashable(AgentId(decode(FirstLine(dial.greeting)).value, addr))
  }

  /** `_handle_agent_connection` from the address parse to the `finally`
      block, with either teardown, while no other connection interleaves. */
  function Lifecycle(reg: Registry, addr: string, dial: Dial, decode: Decoder, corrected: bool): (r: Lifetime)
    ensures r.id.Some? <==> Registers(addr, dial, decode)
    ensures r.id.Some? ==> Hashable(r.id.value)
    ensures !Registers(addr, dial, decode) ==> r == Lifetime(reg, [], None)
  {
    if !Registers(addr, dial, decode) then Lifetime(reg, [], None)
    else
      var initial := decode(FirstLine(dial.greeting)).value;
      var id := AgentId(initial, addr);
      var (reg1, connected) := Register(reg, id, dial.sock, addr, initial);
      var read := ReadLoop(reg1, id, "", dial.chunks, decode);
      var (reg2, closed) := if corrected then Teardown(read.reg, Some(id)) else TeardownAsWritten(read.reg, Some(id));
      Lifetime(reg2, [connected] + read.events + closed, Some(id))
  }

  /** With the intended teardown, a registered agent ends unregistered, the
      first callback announced it and the last one its disconnection, and no
      other record changed. */
  lemma LifecycleEffect(reg: Registry, addr: string, dial: Dial, decode: Decoder)
    ensures var r := Lifecycle(reg, addr, dial, decode, true);
            r.id.Some? ==>
            && r.id.value !in r.reg
            && |r.events| > 1 && r.events[0].Connected? && Last(r.events) == Disconnected(r.id.value)
            && (forall other :: other != r.id.value ==> (other in r.reg <==> other in reg))
            && (forall other :: other != r.id.value && other in reg ==> r.reg[other] == reg[other])
  {
    if !Registers(addr, dial, decode) {
      return;
    }
    var initial := decode(FirstLine(dial.greeting)).value;
    var id := AgentId(initial, addr);
    var (reg1, connected) := Register(reg, id, dial.sock, addr, initial);
    var read := ReadLoop(reg1, id, "", dial.chunks, decode);
    ReadLoopFrame(reg1, id, "", dial.chunks, decode);
    var (reg2, closed) := Teardown(read.reg, Some(id));
    assert Lifecycle(reg, addr, dial, decode, true) == Lifetime(reg2, [connected] + read.events + closed, Some(id));
  }

  /** A connection's whole life with the intended teardown: whatever the
      agent sent, it ends unregistered, the UI heard of its connection first
      and of its disconnection last, and no other agent's record changed. */
  function HandleConnection(reg: Registry, addr: string, dial: Dial, decode: Decoder): (r: Lifetime)
    ensures r.id.Some? <==> Registers(addr, dial, decode)
    ensures r.id.None? ==> r.reg == reg && r.events == []
    ensures r.id.Some? ==> r.id.value !in r.reg
    ensures r.id.Some? ==> |r.events| > 1 && r.events[0].Connected? && Last(r.events) == Disconnected(r.id.value)
    ensures r.id.Some? ==> forall other :: other != r.id.value ==> (other in r.reg <==> other in reg)
    ensures r.id.Some? ==> forall other :: other != r.id.value && other in reg ==> r.reg[other] == reg[other]
  {
    LifecycleEffect(reg, addr, dial, decode);
    Lifecycle(reg, addr, dial, decode, true)
  }

  function HandleConnectionAsWritten(reg: Registry, addr: string, dial: Dial, decode: Decoder): (r: Lifetime)
    ensures r.id.Some? <==> Registers(addr, dial, decode)
    ensures r.id.Some? ==> Hashable(r.id.value)
    ensures r.id.None? ==> r.reg == reg && r.events == []
  {
    Lifecycle(reg, addr, dial, decode, false)
  }

  /** An agent whose first status gives a list as its `agent_id` is never
      registered, under either teardown: the registry is untouched and the
      UI hears nothing. */
  lemma UnhashableIdIgnored(reg: Registry, addr: string, sock: nat, greeting: string, chunks: seq<string>,
                            decode: Decoder, items: seq<Value>)
    requires ParseAddress(addr).Some?
    requires decode(FirstLine(greeting)) == Some(map["agent_id" := List(items)])
    ensures HandleConnectionAsWritten(reg, addr, Opened(sock, greeting, chunks), decode) == Lifetime(reg, [], None)
    ensures HandleConnection(reg, addr, Opened(sock, greeting, chunks), decode) == Lifetime(reg, [], None)
  {
    assert !Registers(addr, Opened(sock, greeting, chunks), decode) by {
      assert AgentId(map["agent_id" := List(items)], addr) == List(items);
    }
  }

  /** A first status that names the agent `""` and reports it idle. */
  const EmptyIdGreeting: Dict := map["agent_id" := Str(""), "status" := Str("Idle")]

  /** Under the code as written, a registered agent with a falsy id that
      sends nothing more leaves behind exactly the record its registration
      made. */
  lemma SilentFalsyLifetime(reg: Registry, addr: string, dial: Dial, decode: Decoder)
    requires Registers(addr, dial, decode) && dial.chunks == []
    requires !Truthy(AgentId(decode(FirstLine(dial.greeting)).value, addr))
    ensures var initial := decode(FirstLine(dial.greeting)).value;
            var (reg1, connected) := Register(reg, AgentId(initial, addr), dial.sock, addr, initial);
            HandleConnectionAsWritten(reg, addr, dial, decode) == Lifetime(reg1, [connected], Some(AgentId(initial, addr)))
  {
    var initial := decode(FirstLine(dial.greeting)).value;
    var id := AgentId(initial, addr);
    var (reg1, connected) := Register(reg, id, dial.sock, addr, initial);
    assert ReadLoop(reg1, id, "", [], decode) == Applied(reg1, [], true);
    assert [connected] + [] + [] == [connected];
  }

  /** An agent reporting an empty `agent_id` is registered under it and,
      under the code as written, still listed as `Idle` after its
      connection is gone, with no disconnection announced. */
  lemma EmptyIdOutlivesConnection(addr: string, sock: nat, greeting: string, decode: Decoder)
    requires ParseAddress(addr).Some?
    requires decode(FirstLine(greeting)) == Some(EmptyIdGreeting)
    ensures var gone := HandleConnectionAsWritten(map[], addr, Opened(sock, greeting, []), decode);
            && gone.id == Some(Str(""))
            && Str("") in AllAgents(gone.reg)
            && AllAgents(gone.reg)[Str("")]["status"] == Str("Idle")
            && gone.events == [Connected(Str(""), AllAgents(gone.reg)[Str("")])]
  {
    var id := Str("");
    assert AgentId(EmptyIdGreeting, addr) == id;
    SilentFalsyLifetime(map[], addr, Opened(sock, greeting, []), decode);
    var reg1 := Register(map[], id, sock, addr, EmptyIdGreeting).0;
    assert AllAgents(reg1)[id] == NewPublic(id, addr, EmptyIdGreeting);
    assert NewPublic(id, addr, EmptyIdGreeting)["status"] == Str("Idle");
  }

  /** The same agent under the intended teardown leaves nothing behind. */
  lemma EmptyIdRemovedWhenCorrected(addr: string, sock: nat, greeting: string, decode: Decoder)
    requires ParseAddress(addr).Some?
    requires decode(FirstLine(greeting)) == Some(EmptyIdGreeting)
    ensures AllAgents(HandleConnection(map[], addr, Opened(sock, greeting, []), decode).reg) == map[]
  {
    var r := HandleConnection(map[], addr, Opened(sock, greeting, []), decode);
    assert r.reg.Keys == {};
  }

  /** Two connections that report the same id share one record: the later
      one replaces the earlier, and the earlier one's teardown removes the
      later one's record while its connection is still open. */
  lemma SharedIdTeardown(reg: Registry, id: Value, sock1: nat, sock2: nat, addr1: string, addr2: string,
                         initial1: Dict, initial2: Dict)
    ensures var reg1 := Register(reg, id, sock1, addr1, initial1).0;
            var reg2 := Register(reg1, id, sock2, addr2, initial2).0;
            && reg2[id].sock == sock2
            && id !in Teardown(reg2, Some(id)).0
  {
  }

  /** The remembered addresses after `_add_agent_to_save_file`, given the
      list the file held (`None` when it is missing or does not parse, in
      which case it starts again from an empty list). `None` when nothing is
      written because the address is already there. */
  function AddToSaveList(saved: Option<seq<string>>, addr: string): (r: Option<seq<string>>)
    ensures var prior := if saved.Some? then saved.value else [];
            && (addr in prior <==> r.None?)
            && (r.Some? ==> r.value == prior + [addr])
  {
    var prior := if saved.Some? then saved.value else [];
    if addr in prior then None else Some(prior + [addr])
  }

  predicate NoDuplicates(xs: seq<string>)
  {
    forall i, j :: 0 <= i < j < |xs| ==> xs[i] != xs[j]
  }

  /** The list written keeps the old entries in order, ends with the new
      address, and has no duplicates when the old one had none; adding the
      same address again writes nothing. */
  lemma SaveListAppendIfAbsent(saved: seq<string>, addr: string)
    requires NoDuplicates(saved)
    ensures var r := AddToSaveList(Some(saved), addr);
            r.Some? ==> NoDuplicates(r.value) && r.value[..|saved|] == saved && addr in r.value
    ensures var r := AddToSaveList(Some(saved), addr);
            r.Some? ==> AddToSaveList(r, addr) == None
  {
    var r := AddToSaveList(Some(saved), addr);
    if r.Some? {
      assert r.value[|saved|] == addr;
    }
  }

  /** `connect_to_agent`: an empty address is ignored; any other is
      remembered and dialled. */
  datatype Connect = Ignored | Dialling(saveWrite: Option<seq<string>>, addr: string)

  function ConnectToAgent(saved: Option<seq<string>>, addr: string): (r: Connect)
    ensures addr == "" <==> r.Ignored?
    ensures r.Dialling? ==> r.addr == addr && r.saveWrite == AddToSaveList(saved, addr)
  {
    if addr == "" then Ignored else Dialling(AddToSaveList(saved, addr), addr)
  }
}
