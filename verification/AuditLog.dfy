/** The hash-chained audit log and its JSONL file. */
module AuditLogs {
  import opened Options

  const GENESIS_HASH: string := "0000000000000000000000000000000000000000000000000000000000000000"
  const TAIL_BYTES: nat := 4096

  datatype Content = Content(
    blockIndex: int, timestamp: int, action: string, resource: string, requester: string, nonce: string)

  datatype AuditEntry = AuditEntry(content: Content, prevHash: string, blockHash: string)

  /** SHA-256 over the previous hash and the canonical content. */
  type Hasher = (string, Content) -> string

  /** The JSON text of one entry, without its line end. */
  type Encoder = AuditEntry -> string

  function LinkAt(log: seq<AuditEntry>, i: nat): string
    requires i <= |log|
  {
    if i == 0 then GENESIS_HASH else log[i - 1].blockHash
  }

  /** Entry `i` has its index, is linked to its predecessor, and its hash matches. */
  ghost predicate Linked(hash: Hasher, log: seq<AuditEntry>, i: nat)
    requires i < |log|
  {
    && log[i].content.blockIndex == i
    && log[i].prevHash == LinkAt(log, i)
    && log[i].blockHash == hash(log[i].prevHash, log[i].content)
  }

  ghost predicate ValidChain(hash: Hasher, log: seq<AuditEntry>)
  {
    forall i :: 0 <= i < |log| ==> Linked(hash, log, i)
  }

  /** The line and its line end fit in the tail that is read to find the last entry. */
  predicate Fits(encode: Encoder, e: AuditEntry)
  {
    |encode(e)| + 1 <= TAIL_BYTES
  }

  function LastEntry(encode: Encoder, log: seq<AuditEntry>): Option<AuditEntry>
  {
    if log == [] || !Fits(encode, log[|log| - 1]) then None else Some(log[|log| - 1])
  }

  function AllPresent(action: string, resource: string, requester: string, nonce: string): bool
  {
    action != "" && resource != "" && requester != "" && nonce != ""
  }

  function NextEntry(
    hash: Hasher, last: Option<AuditEntry>,
    now: int, action: string, resource: string, requester: string, nonce: string)
    : AuditEntry
  {
    var prevHash := if last.Some? then last.value.blockHash else GENESIS_HASH;
    var index := if last.Some? then last.value.content.blockIndex + 1 else 0;
    var content := Content(index, now, action, resource, requester, nonce);
    AuditEntry(content, prevHash, hash(prevHash, content))
  }

  class AuditLog {
    const hash: Hasher
    const encode: Encoder
    var entries: seq<AuditEntry>

    /** Opens the file, which may hold entries already. */
    constructor (hash: Hasher, encode: Encoder, existing: seq<AuditEntry>)
      ensures this.hash == hash && this.encode == encode && entries == existing
    {
      this.hash := hash;
      this.encode := encode;
      entries := existing;
    }

    /** `None` is the error for an empty field. */
    method Append(action: string, resource: string, requester: string, nonce: string, now: int)
      returns (entry: Option<AuditEntry>)
      modifies this
      ensures entry.Some? <==> AllPresent(action, resource, requester, nonce)
      ensures entry.None? ==> entries == old(entries)
      ensures var last := LastEntry(encode, old(entries));
              entry.Some? ==> entry.value == NextEntry(hash, last, now, action, resource, requester, nonce)
      ensures entry.Some? ==> entries == old(entries) + [entry.value]
      ensures entry.Some? ==>
                var c := entry.value.content;
                && c.timestamp == now && c.action == action && c.resource == resource
                && c.requester == requester && c.nonce == nonce
                && entry.value.blockHash == hash(entry.value.prevHash, c)
      ensures entry.Some? && (old(entries) == [] || |encode(old(entries)[|old(entries)| - 1])| >= 4096) ==>
                entry.value.content.blockIndex == 0
                && entry.value.prevHash == "0000000000000000000000000000000000000000000000000000000000000000"
      ensures entry.Some? && old(entries) != [] && |encode(old(entries)[|old(entries)| - 1])| < 4096 ==>
                var last := old(entries)[|old(entries)| - 1];
                entry.value.content.blockIndex == last.content.blockIndex + 1 && entry.value.prevHash == last.blockHash
      ensures entry.None? <==> action == "" || resource == "" || requester == "" || nonce == ""
    {
      if !AllPresent(action, resource, requester, nonce) {
        return None;
      }
      var last := LastEntry(encode, entries);
      entry := Some(NextEntry(hash, last, now, action, resource, requester, nonce));
      entries := entries + [entry.value];
    }

    method FlushEntry(entry: AuditEntry)
      modifies this
      ensures entries == old(entries) + [entry]
    {
      entries := entries + [entry];
    }

    method VerifyChain() returns (ok: bool)
      ensures ok <==> ValidChain(hash, entries)
    {
      var prevHash := GENESIS_HASH;
      var expectedIndex := 0;
      while expectedIndex < |entries|
        invariant 0 <= expectedIndex <= |entries|
        invariant prevHash == LinkAt(entries, expectedIndex)
        invariant forall i :: 0 <= i < expectedIndex ==> Linked(hash, entries, i)
      {
        var entry := entries[expectedIndex];
        if || entry.content.blockIndex != expectedIndex
           || entry.prevHash != prevHash
           || hash(prevHash, entry.content) != entry.blockHash {
          assert !Linked(hash, entries, expectedIndex);
          return false;
        }
        prevHash := entry.blockHash;
        expectedIndex := expectedIndex + 1;
      }
      ok := true;
    }
  }

  lemma LinkedInLonger(hash: Hasher, log: seq<AuditEntry>, longer: seq<AuditEntry>, i: nat)
    requires log <= longer && i < |log|
    ensures Linked(hash, longer, i) <==> Linked(hash, log, i)
  {
  }

  /** Appending keeps the chain valid exactly when the log was empty or its last line fits in the tail. */
  lemma AppendKeepsChainIffLastLineFits(
    hash: Hasher, encode: Encoder, log: seq<AuditEntry>,
    now: int, action: string, resource: string, requester: string, nonce: string)
    requires ValidChain(hash, log)
    ensures var e := NextEntry(hash, LastEntry(encode, log), now, action, resource, requester, nonce);
            ValidChain(hash, log + [e]) <==> log == [] || Fits(encode, log[|log| - 1])
  {
    var e := NextEntry(hash, LastEntry(encode, log), now, action, resource, requester, nonce);
    forall i | 0 <= i < |log|
      ensures Linked(hash, log + [e], i)
    {
      LinkedInLonger(hash, log, log + [e], i);
    }
    if log != [] {
      assert Linked(hash, log, |log| - 1);
    }
    assert Linked(hash, log + [e], |log|) <==> log == [] || Fits(encode, log[|log| - 1]);
  }

  /** Two entries that were hashed from different inputs to the same block hash. */
  ghost predicate Collide(a: AuditEntry, b: AuditEntry)
  {
    a.blockHash == b.blockHash && (a.prevHash != b.prevHash || a.content != b.content)
  }

  /** Two verified logs with the same tip are the same log, or they exhibit a collision of the hash. */
  lemma {:induction false} TipDeterminesLog(hash: Hasher, a: seq<AuditEntry>, b: seq<AuditEntry>)
    returns (i: nat, j: nat)
    requires ValidChain(hash, a) && ValidChain(hash, b) && a != [] && b != []
    requires a[|a| - 1].blockHash == b[|b| - 1].blockHash
    ensures a == b || (i < |a| && j < |b| && Collide(a[i], b[j]))
    decreases |a|
  {
    i, j := |a| - 1, |b| - 1;
    assert Linked(hash, a, i) && Linked(hash, b, j);
    if !Collide(a[i], b[j]) {
      assert i == a[i].content.blockIndex == b[j].content.blockIndex == j;
      assert a == a[..i] + [a[i]] && b == b[..j] + [b[j]];
      if i > 0 {
        ChainPrefix(hash, a, i);
        ChainPrefix(hash, b, j);
        assert LinkAt(a, i) == a[i - 1].blockHash && LinkAt(b, j) == b[j - 1].blockHash;
        i, j := TipDeterminesLog(hash, a[..i], b[..j]);
      }
    }
  }

  /** Cutting entries off the end leaves a log that still verifies. */
  lemma ChainPrefix(hash: Hasher, log: seq<AuditEntry>, k: nat)
    requires ValidChain(hash, log) && k <= |log|
    ensures ValidChain(hash, log[..k])
  {
    forall i | 0 <= i < k
      ensures Linked(hash, log[..k], i)
    {
      LinkedInLonger(hash, log[..k], log, i);
    }
  }

  // ---- the bytes of the file ---------------------------------------------------------------------

  predicate Blank(line: string)
  {
    forall i :: 0 <= i < |line| ==> line[i] in {' ', '\t', '\r'}
  }

  function Render(encode: Encoder, log: seq<AuditEntry>): string
  {
    if log == [] then "" else Render(encode, log[..|log| - 1]) + encode(log[|log| - 1]) + "\n"
  }

  function Tail(file: string): string
  {
    if |file| <= TAIL_BYTES then file else file[|file| - TAIL_BYTES..]
  }

  /** Where the last line of `text` begins. */
  function LineStart(text: string): (cut: nat)
    ensures cut <= |text| && forall i :: cut <= i < |text| ==> text[i] != '\n'
    ensures cut > 0 ==> text[cut - 1] == '\n'
  {
    if text == "" || text[|text| - 1] == '\n' then |text| else
      LineStart(text[..|text| - 1])
  }

  /** The last line that is not blank. */
  function LastLine(text: string): Option<string>
    decreases |text|
  {
    var cut := LineStart(text);
    if !Blank(text[cut..]) then Some(text[cut..])
    else if cut == 0 then None
    else LastLine(text[..cut - 1])
  }

  predicate IsWhite(c: char)
  {
    c == ' ' || c == '\t' || c == '\r' || c == '\n'
  }

  predicate HasInk(line: string)
  {
    exists i :: 0 <= i < |line| && !IsWhite(line[i])
  }

  /** The last line has something on it, and if there is none, the text is nothing but white space. */
  lemma {:induction false} LastLineIsNotBlank(text: string)
    ensures LastLine(text).Some? ==> HasInk(LastLine(text).value) && '\n' !in LastLine(text).value
    ensures LastLine(text).None? ==> !HasInk(text)
    decreases |text|
  {
    var cut := LineStart(text);
    var line := text[cut..];
    if Blank(line) {
      assert forall i :: cut <= i < |text| ==> text[i] == line[i - cut];
      if cut > 0 {
        LastLineIsNotBlank(text[..cut - 1]);
        assert forall i :: 0 <= i < cut - 1 ==> text[i] == text[..cut - 1][i];
      }
    } else {
      var i :| 0 <= i < |line| && line[i] !in {' ', '\t', '\r'};
      assert !IsWhite(line[i]);
    }
  }

  /** How the last entry is read from the file; `parse` fails on anything but the text of an entry. */
  function LastEntryOfFile(parse: string -> Option<AuditEntry>, file: string): Option<AuditEntry>
  {
    match LastLine(Tail(file))
    case None => None
    case Some(line) => parse(line)
  }

  /** An entry's text is one non-blank line, parses back, and no part cut off at its front parses. */
  ghost predicate IsLineFormat(encode: Encoder, parse: string -> Option<AuditEntry>, e: AuditEntry)
  {
    && parse(encode(e)) == Some(e)
    && '\n' !in encode(e) && !Blank(encode(e))
    && forall k :: 0 < k <= |encode(e)| ==> parse(encode(e)[k..]) == None
  }

  lemma LineStartAt(text: string, cut: nat)
    requires cut <= |text| && (cut > 0 ==> text[cut - 1] == '\n')
    requires forall i :: cut <= i < |text| ==> text[i] != '\n'
    ensures LineStart(text) == cut
  {
  }

  lemma LastLineOfTail(before: string, line: string)
    requires '\n' !in line && (before != "" ==> before[|before| - 1] == '\n')
    requires before == "" || !Blank(line)
    ensures LastLine(before + line + "\n") == if Blank(line) then None else Some(line)
  {
    var text := before + line + "\n";
    LineStartAt(text, |text|);
    assert text[..|text| - 1] == before + line;
    LineStartAt(before + line, |before|);
    assert (before + line)[|before|..] == line;
  }

  lemma RenderEndsLine(encode: Encoder, log: seq<AuditEntry>)
    requires log != []
    ensures var file := Render(encode, log); file != "" && file[|file| - 1] == '\n'
  {
  }

  lemma TailKeepsLine(before: string, line: string)
    requires '\n' !in line && !Blank(line) && (before != "" ==> before[|before| - 1] == '\n')
    requires |line| + 1 <= TAIL_BYTES
    ensures LastLine(Tail(before + line + "\n")) == Some(line)
  {
    var file := before + line + "\n";
    if |file| <= TAIL_BYTES {
      LastLineOfTail(before, line);
    } else {
      var kept := before[|file| - TAIL_BYTES..];
      assert Tail(file) == kept + line + "\n";
      LastLineOfTail(kept, line);
    }
  }

  lemma TailCutsLine(before: string, line: string)
    requires '\n' !in line && |line| + 1 > TAIL_BYTES
    ensures var rest := line[|line| + 1 - TAIL_BYTES..];
            LastLine(Tail(before + line + "\n")) == if Blank(rest) then None else Some(rest)
  {
    var rest := line[|line| + 1 - TAIL_BYTES..];
    assert Tail(before + line + "\n") == "" + rest + "\n";
    LastLineOfTail("", rest);
  }

  /** Reading the last entry from the file's tail finds what a scan of the whole log finds, if the line fits. */
  lemma TailReadIsLastEntry(encode: Encoder, parse: string -> Option<AuditEntry>, log: seq<AuditEntry>)
    requires forall i :: 0 <= i < |log| ==> IsLineFormat(encode, parse, log[i])
    ensures LastEntryOfFile(parse, Render(encode, log)) == LastEntry(encode, log)
  {
    if log == [] {
    } else {
      var e := log[|log| - 1];
      assert IsLineFormat(encode, parse, e);
      var before := Render(encode, log[..|log| - 1]);
      if |log| > 1 {
        RenderEndsLine(encode, log[..|log| - 1]);
      }
      if Fits(encode, e) {
        TailKeepsLine(before, encode(e));
      } else {
        TailCutsLine(before, encode(e));
      }
    }
  }
}
