/** The process list response: a count and entries of variable length. */
module ProcessList {
  import opened Basics
  import opened WireProtocol

  /** What a node reports of a process; only the first 48 bytes of the name are sent. */
  datatype Process = Process(pid: u32, state: byte, name: Bytes)

  /** What a parser stores: the name padded with zeros to 48 bytes, and its length. */
  datatype RemoteEntry = RemoteEntry(pid: u32, state: byte, name: Bytes, nameLen: nat)

  function Cut(name: Bytes): Bytes { if |name| <= NAME_SIZE then name else name[..NAME_SIZE] }

  function Shown(p: Process): RemoteEntry {
    RemoteEntry(p.pid, p.state, Cut(p.name) + Repeat(0, NAME_SIZE - |Cut(p.name)|), |Cut(p.name)|)
  }

  function Trimmed(p: Process): Process { p.(name := Cut(p.name)) }

  // ----- encoding -----

  /** An entry on the wire carries up to 255 bytes of name. */
  function EncodeEntry(p: Process): Bytes
    requires |p.name| < 256
  {
    Le32(p.pid) + [p.state, |p.name|] + p.name
  }

  predicate ShortNames(ps: seq<Process>) { forall i :: 0 <= i < |ps| ==> |ps[i].name| < 256 }

  function EncodeAll(ps: seq<Process>): Bytes
    requires ShortNames(ps)
  {
    if ps == [] then [] else EncodeEntry(ps[0]) + EncodeAll(ps[1..])
  }

  function TrimAll(ps: seq<Process>): (r: seq<Process>)
    ensures |r| == |ps| && ShortNames(r) && forall i :: 0 <= i < |ps| ==> r[i] == Trimmed(ps[i])
  {
    if ps == [] then [] else [Trimmed(ps[0])] + TrimAll(ps[1..])
  }

  function Header(count: nat): Bytes
    requires count < 0x1_0000
  {
    Le16(PROCLIST_RESP) + Le16(count)
  }

  lemma {:induction false} EncodeNext(ps: seq<Process>, p: Process)
    requires ShortNames(ps) && ShortNames(ps + [p]) && |p.name| < 256
    ensures EncodeAll(ps + [p]) == EncodeAll(ps) + EncodeEntry(p)
  {
    if ps == [] {
      assert ps + [p] == [p] && [p][1..] == [];
      assert EncodeAll([p]) == EncodeEntry(p) + [];
    } else {
      var rest := ps[1..];
      assert (ps + [p])[1..] == rest + [p] && (ps + [p])[0] == ps[0];
      EncodeNext(rest, p);
      Associate(EncodeEntry(ps[0]), EncodeAll(rest), EncodeEntry(p));
    }
  }

  lemma Associate(a: Bytes, b: Bytes, c: Bytes)
    ensures a + (b + c) == a + b + c
  {
  }

  // ----- parsing -----

  /** The entry at `pos` and the position after it. */
  function EntryAt(buf: Bytes, pos: nat): (r: Option<(Process, nat)>)
    ensures r.Some? ==> pos + 6 <= r.value.1 <= |buf| && |r.value.0.name| < 256
  {
    if pos + 6 > |buf| || pos + 6 + buf[pos + 5] as int > |buf| then None
    else
      var n := buf[pos + 5] as int;
      Some((Process(From32(buf[pos], buf[pos + 1], buf[pos + 2], buf[pos + 3]), buf[pos + 4], buf[pos + 6..pos + 6 + n]),
            pos + 6 + n))
  }

  /** The entries readable from `pos`, at most `count`. */
  function Entries(buf: Bytes, pos: nat, count: nat): (r: seq<Process>)
    ensures |r| <= count && ShortNames(r)
    decreases count
  {
    if count == 0 || EntryAt(buf, pos) == None then []
    else [EntryAt(buf, pos).value.0] + Entries(buf, EntryAt(buf, pos).value.1, count - 1)
  }

  function CountField(buf: Bytes): nat
    requires |buf| >= 4
  {
    From16(buf[2], buf[3])
  }

  /** The entries a response holds, if it is well formed and there is room for them. */
  function ParseResp(buf: Bytes, room: nat): Option<seq<Process>> {
    if |buf| < 4 || !HasMagic(buf, PROCLIST_RESP) || CountField(buf) > room then None
    else if |Entries(buf, 4, CountField(buf))| < CountField(buf) then None
    else Some(Entries(buf, 4, CountField(buf)))
  }

  // ----- parsing is the inverse of encoding -----

  lemma EntryExact(buf: Bytes, pos: nat, p: Process)
    requires |p.name| < 256
    ensures EntryAt(buf, pos) == Some((p, pos + |EncodeEntry(p)|)) <==> At(buf, pos, EncodeEntry(p))
    ensures EntryAt(buf, pos).Some? && EntryAt(buf, pos).value.0 == p ==>
      EntryAt(buf, pos).value.1 == pos + |EncodeEntry(p)|
  {
    var t2 := [|p.name|] + p.name;
    var t1 := [p.state] + t2;
    assert EncodeEntry(p) == Le32(p.pid) + t1;
    AtSplit(buf, pos, Le32(p.pid), t1);
    At32(buf, pos, p.pid);
    ByteNext(buf, pos + 4, p.state, t2);
    ByteNext(buf, pos + 5, |p.name|, p.name);
  }

  /** All `|ps|` entries are read as `ps` iff the buffer holds their encoding at `pos`. */
  lemma {:induction false} EntriesExact(buf: Bytes, pos: nat, ps: seq<Process>)
    requires ShortNames(ps) && pos <= |buf|
    ensures Entries(buf, pos, |ps|) == ps <==> At(buf, pos, EncodeAll(ps))
    decreases |ps|
  {
    if ps == [] {
    } else {
      var e := EncodeEntry(ps[0]);
      EntryExact(buf, pos, ps[0]);
      AtSplit(buf, pos, e, EncodeAll(ps[1..]));
      if At(buf, pos, e) {
        EntriesExact(buf, pos + |e|, ps[1..]);
        assert ps == [ps[0]] + ps[1..];
      }
    }
  }

  lemma HeaderExact(buf: Bytes, count: nat)
    requires count < 0x1_0000
    ensures At(buf, 0, Header(count)) <==> |buf| >= 4 && HasMagic(buf, PROCLIST_RESP) && CountField(buf) == count
  {
  }

  lemma ParsedWhen(buf: Bytes, room: nat, ps: seq<Process>)
    ensures ParseResp(buf, room) == Some(ps) <==>
      |buf| >= 4 && HasMagic(buf, PROCLIST_RESP) && CountField(buf) == |ps| <= room && Entries(buf, 4, |ps|) == ps
  {
  }

  /** A response parses to `ps` if and only if the buffer begins with the header for `|ps|` and
      the encodings of `ps`, and there is room for them. */
  lemma RespExact(buf: Bytes, room: nat, ps: seq<Process>, body: Bytes)
    requires ShortNames(ps) && |ps| < 0x1_0000 && body == EncodeAll(ps)
    ensures ParseResp(buf, room) == Some(ps) <==> At(buf, 0, Header(|ps|) + body) && |ps| <= room
  {
    AtSplit(buf, 0, Header(|ps|), body);
    HeaderExact(buf, |ps|);
    ParsedWhen(buf, room, ps);
    if |buf| >= 4 {
      EntriesExact(buf, 4, ps);
    }
  }

  /** A process list of any names comes back in order with the names cut to 48 bytes, whatever
      follows it in the buffer. */
  lemma ListRoundTrip(ps: seq<Process>, sent: seq<Process>, body: Bytes, buf: Bytes, room: nat)
    requires |ps| <= MAX_ENTRIES && |ps| <= room && sent == TrimAll(ps) && body == EncodeAll(sent)
    requires At(buf, 0, Header(|ps|) + body)
    ensures ParseResp(buf, room) == Some(sent)
  {
    RespExact(buf, room, sent, body);
  }

  /** Cutting a name that is already cut changes nothing: what is stored is what was sent. */
  lemma ShownTrimmed(p: Process)
    ensures Shown(Trimmed(p)) == Shown(p) && Shown(p).name[..Shown(p).nameLen] == Cut(p.name)
  {
  }

  /** A process list response is accepted by no other parser. */
  lemma RespExclusive(buf: Bytes, room: nat, p: Packet)
    requires ParseResp(buf, room).Some?
    ensures ParseLike(p, buf) == None
  {
  }

  // ----- writing -----

  /** An empty list panics on a buffer shorter than the header. */
  datatype WriteResult = Panicked | Refused | Written(n: nat)

  /** `was` with the entries written so far, from position 4 on. */
  function Partly(was: Bytes, done: Bytes): Bytes
    requires done == [] || 4 + |done| <= |was|
  {
    if done == [] then was else Splice(was, 4, done)
  }

  lemma PartlyNext(was: Bytes, done: Bytes, e: Bytes)
    requires 4 + |done| + |e| <= |was| && e != []
    ensures Splice(Partly(was, done), 4 + |done|, e) == Partly(was, done + e)
  {
  }

  lemma {:induction false} PrefixShorter(ps: seq<Process>, k: nat)
    requires ShortNames(ps) && k <= |ps|
    ensures |EncodeAll(ps[..k])| <= |EncodeAll(ps)|
  {
    if k == 0 {
    } else {
      assert ps[..k][1..] == ps[1..][..k - 1];
      PrefixShorter(ps[1..], k - 1);
    }
  }

  method WriteEntry(buf: array<byte>, pos: nat, p: Process)
    requires pos + 6 + |Cut(p.name)| <= buf.Length
    modifies buf
    ensures buf[..] == Splice(old(buf[..]), pos, EncodeEntry(Trimmed(p)))
  {
    var n := if |p.name| < NAME_SIZE then |p.name| else NAME_SIZE;
    assert p.name[..n] == Cut(p.name);
    Write(buf, pos, Le32(p.pid) + [p.state, n] + p.name[..n]);
  }

  /** Write entries from position 4 until all are written or one does not fit. */
  method WriteEntries(buf: array<byte>, ps: seq<Process>, ghost sent: seq<Process>) returns (pos: nat, k: nat)
    requires sent == TrimAll(ps)
    modifies buf
    ensures k <= |ps| && pos == 4 + |EncodeAll(sent[..k])|
    ensures (k == 0 || pos <= buf.Length) && buf[..] == Partly(old(buf[..]), EncodeAll(sent[..k]))
    ensures k < |ps| ==> 4 + |EncodeAll(sent[..k + 1])| > buf.Length
  {
    ghost var was := buf[..];
    ghost var done: Bytes := [];
    pos := 4;
    k := 0;
    while k < |ps|
      invariant k <= |ps| && done == EncodeAll(sent[..k])
      invariant pos == 4 + |done| && (k == 0 || pos <= buf.Length) && buf[..] == Partly(was, done)
    {
      var n := if |ps[k].name| < NAME_SIZE then |ps[k].name| else NAME_SIZE;
      ghost var e := EncodeEntry(sent[k]);
      TakeOneMore(sent, k, done, e);
      if buf.Length < pos + 6 + n {
        return;
      }
      WriteEntry(buf, pos, ps[k]);
      PartlyNext(was, done, e);
      done := done + e;
      pos := pos + 6 + n;
      k := k + 1;
    }
  }

  lemma TakeOneMore(sent: seq<Process>, k: nat, done: Bytes, e: Bytes)
    requires ShortNames(sent) && k < |sent| && done == EncodeAll(sent[..k]) && e == EncodeEntry(sent[k])
    ensures done + e == EncodeAll(sent[..k + 1])
  {
    assert sent[..k + 1] == sent[..k] + [sent[k]];
    EncodeNext(sent[..k], sent[k]);
  }

  /** The response is written whole exactly when it fits; when it does not, the entries before
      the first that does not fit have been written and the header has not. */
  method WriteProclistResp(buf: array<byte>, ps: seq<Process>, ghost sent: seq<Process>)
    returns (r: WriteResult, ghost k: nat)
    requires sent == TrimAll(ps)
    modifies buf
    ensures |ps| > MAX_ENTRIES ==> r == Refused && buf[..] == old(buf[..])
    ensures |ps| <= MAX_ENTRIES ==>
      r == if ps == [] && buf.Length < 4 then Panicked
           else if 4 + |EncodeAll(sent)| <= buf.Length then Written(4 + |EncodeAll(sent)|) else Refused
    ensures r.Written? ==> At(buf[..], 0, Header(|ps|) + EncodeAll(sent)) && buf[r.n..] == old(buf[r.n..])
    ensures |ps| <= MAX_ENTRIES && r.Refused? ==>
      && k < |ps| && (k == 0 || 4 + |EncodeAll(sent[..k])| <= buf.Length) && 4 + |EncodeAll(sent[..k + 1])| > buf.Length
      && buf[..] == Partly(old(buf[..]), EncodeAll(sent[..k]))
  {
    k := 0;
    if |ps| > MAX_ENTRIES {
      return Refused, 0;
    }
    ghost var was := buf[..];
    var pos, count := WriteEntries(buf, ps, sent);
    k := count;
    if count < |ps| {
      PrefixShorter(sent, count + 1);
      return Refused, count;
    }
    assert sent[..|ps|] == sent;
    if buf.Length < 4 {
      return Panicked, count;
    }
    Write(buf, 0, Header(count));
    HeaderOverBody(was, EncodeAll(sent), Header(count));
    return Written(pos), count;
  }

  lemma HeaderOverBody(was: Bytes, body: Bytes, header: Bytes)
    requires |header| == 4 && 4 + |body| <= |was|
    ensures var now := Splice(Partly(was, body), 0, header);
      At(now, 0, header + body) && now[4 + |body|..] == was[4 + |body|..]
  {
  }

  // ----- reading -----

  lemma CutIsPrefix(buf: Bytes, at: nat, n: nat, copied: nat)
    requires at + n <= |buf| && copied == if n < NAME_SIZE then n else NAME_SIZE
    ensures buf[at..at + copied] == Cut(buf[at..at + n])
  {
  }

  method ReadEntry(buf: Bytes, pos: nat) returns (ok: bool, e: RemoteEntry, next: nat)
    requires pos <= |buf|
    ensures ok <==> EntryAt(buf, pos).Some?
    ensures ok ==> e == Shown(EntryAt(buf, pos).value.0) && next == EntryAt(buf, pos).value.1
  {
    ok, e, next := false, RemoteEntry(0, 0, [], 0), pos;
    if pos + 6 > |buf| {
      return;
    }
    var pid := From32(buf[pos], buf[pos + 1], buf[pos + 2], buf[pos + 3]);
    var n := buf[pos + 5] as int;
    if pos + 6 + n > |buf| {
      return;
    }
    var copied := if n < NAME_SIZE then n else NAME_SIZE;
    CutIsPrefix(buf, pos + 6, n, copied);
    var name := buf[pos + 6..pos + 6 + copied];
    ok, e, next := true, RemoteEntry(pid, buf[pos + 4], name + Repeat(0, NAME_SIZE - copied), copied), pos + 6 + n;
  }

  /** What remains to be read after the first `i` entries, once one more is read. */
  lemma EntriesNext(buf: Bytes, pos: nat, all: seq<Process>, i: nat, count: nat)
    requires i < count && i <= |all| && all[i..] == Entries(buf, pos, count - i) && EntryAt(buf, pos).Some?
    ensures i < |all| && all[i] == EntryAt(buf, pos).value.0
    ensures all[i + 1..] == Entries(buf, EntryAt(buf, pos).value.1, count - i - 1)
  {
  }

  /** The first `n` places of `now` show `ps`, and the others are as in `was`. */
  ghost predicate Stored(was: seq<RemoteEntry>, now: seq<RemoteEntry>, ps: seq<Process>, n: nat) {
    && n <= |ps| && n <= |was| == |now|
    && (forall m :: 0 <= m < n ==> now[m] == Shown(ps[m]))
    && (forall m :: n <= m < |was| ==> now[m] == was[m])
  }

  /** Store entries until `count` are stored or one is malformed; `pos` never passes the buffer. */
  method ReadEntries(buf: Bytes, count: nat, out: array<RemoteEntry>) returns (i: nat)
    requires |buf| >= 4 && count <= out.Length
    modifies out
    ensures var ps := Entries(buf, 4, count); i == |ps| && Stored(old(out[..]), out[..], ps, |ps|)
  {
    var pos: nat := 4;
    i := 0;
    ghost var all := Entries(buf, 4, count);
    while i < count
      invariant i <= |all| && i <= count && pos <= |buf|
      invariant all[i..] == Entries(buf, pos, count - i)
      invariant Stored(old(out[..]), out[..], all, i)
    {
      var ok, e, next := ReadEntry(buf, pos);
      if !ok {
        break;
      }
      EntriesNext(buf, pos, all, i, count);
      out[i] := e;
      pos := next;
      i := i + 1;
    }
  }

  /** The entries parsed are stored in order; on a malformed entry those before it are. */
  method ParseProclistResp(buf: Bytes, out: array<RemoteEntry>) returns (r: Option<nat>)
    modifies out
    ensures r == match ParseResp(buf, out.Length) case None => None case Some(ps) => Some(|ps|)
    ensures if |buf| < 4 || !HasMagic(buf, PROCLIST_RESP) || CountField(buf) > out.Length then out[..] == old(out[..])
            else var ps := Entries(buf, 4, CountField(buf)); Stored(old(out[..]), out[..], ps, |ps|)
  {
    if |buf| < 4 {
      return None;
    }
    if From16(buf[0], buf[1]) != PROCLIST_RESP {
      return None;
    }
    var count := From16(buf[2], buf[3]);
    if count > out.Length {
      return None;
    }
    var i := ReadEntries(buf, count, out);
    return if i == count then Some(count) else None;
  }
}
