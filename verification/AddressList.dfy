/** The list of addresses a key is restricted to, as it is read from what was typed
    (internal/httpapi/addresses.go). */
module AddressList {
  import opened Text
  import opened Net
  import opened Credentials

  const MAX_ADDRESSES := 64

  datatype Host = Host(addr: Addr, zone: string)

  /** The text forms netip reads: a block, or an address with an optional zone. */
  datatype Reader = Reader(block: string -> Option<Prefix>, host: string -> Option<Host>)

  datatype Result =
    | Allowed(blocks: seq<Prefix>)
    | TooMany
    | BadAddress(entry: string)
    | AnyAddressBlock(entry: string)

  // Blocks

  /** An IPv4 address written as an IPv6 one: the 96 bits in front are 80 zeros and 16 ones. */
  predicate Is4In6(a: Addr) {
    a.family.V6? && Shr(a.number, 32) == 0xffff
  }

  function Unmap(a: Addr): Addr {
    ShlShr(a.number, 32);
    if Is4In6(a) then Addr(V4, a.number - Shl(Shr(a.number, 32), 32)) else a
  }

  function Free(p: Prefix): nat {
    Width(p.addr.family) - p.bits
  }

  /** The block with its host bits cleared. */
  function Masked(p: Prefix): (masked: Prefix)
    ensures masked.bits == p.bits && masked.addr.family == p.addr.family
  {
    ShlShr(p.addr.number, Free(p));
    Prefix(Addr(p.addr.family, Shl(Shr(p.addr.number, Free(p)), Free(p))), p.bits)
  }

  /** Clearing the host bits keeps every leading bit. */
  lemma MaskingKeepsTheBlock(p: Prefix)
    ensures Shr(Masked(p).addr.number, Free(p)) == Shr(p.addr.number, Free(p))
  {
    ShrShl(Shr(p.addr.number, Free(p)), Free(p));
  }

  /** Clearing them twice changes nothing. */
  lemma MaskedOnce(p: Prefix)
    ensures Masked(Masked(p)) == Masked(p)
  {
    MaskingKeepsTheBlock(p);
  }

  /** Masking never turns a block into an IPv4 one in disguise. */
  lemma MaskingDoesNotDisguise(p: Prefix)
    requires !Is4In6(p.addr)
    ensures !Is4In6(Masked(p).addr)
  {
    var n, k, m := p.addr.number, Free(p), Masked(p).addr.number;
    var q := Shr(n, k);
    if k <= 32 {
      ShrSum(n, k, 32 - k);
      ShrSum(m, k, 32 - k);
      ShrShl(q, k);
    } else {
      ShlSum(q, k - 32, 32);
      ShrShl(Shl(q, k - 32), 32);
      assert Shr(m, 32) == 2 * Shl(q, k - 33);
    }
  }

  // Reading one entry

  function ReadAddress(reader: Reader, entry: string): Option<Prefix> {
    var block := reader.block(entry);
    if block.Some? then
      if Is4In6(block.value.addr) then None else Some(Masked(block.value))
    else
      var host := reader.host(entry);
      if host.None? || host.value.zone != "" then None
      else
        var addr := Unmap(host.value.addr);
        Some(Prefix(addr, Width(addr.family)))
  }

  /** What an entry stands for: the block it names, or the one address, IPv4 ones in disguise undone. */
  predicate Denotes(reader: Reader, entry: string, a: Addr) {
    var block := reader.block(entry);
    if block.Some? then InPrefix(block.value, a)
    else var host := reader.host(entry); host.Some? && Unmap(host.value.addr) == a
  }

  /** A block as it is stored holds what the block as it was typed holds. */
  lemma MaskedIsFaithful(p: Prefix, a: Addr)
    ensures InPrefix(Masked(p), a) <==> InPrefix(p, a)
  {
    MaskingKeepsTheBlock(p);
    SameTopBits(Masked(p), p, a);
  }

  lemma SameTopBits(p: Prefix, q: Prefix, a: Addr)
    requires p.bits == q.bits && p.addr.family == q.addr.family
    requires Shr(p.addr.number, Free(p)) == Shr(q.addr.number, Free(q))
    ensures InPrefix(p, a) <==> InPrefix(q, a)
  {
  }

  /** A block of one address holds that address. */
  lemma SingleIsFaithful(addr: Addr, a: Addr)
    requires !Is4In6(addr)
    ensures var p := Prefix(addr, Width(addr.family));
            Masked(p) == p && !Is4In6(p.addr) && (InPrefix(p, a) <==> addr == a)
  {
  }

  lemma ReadAddressIsFaithful(reader: Reader, entry: string, a: Addr)
    requires ReadAddress(reader, entry).Some?
    ensures var p := ReadAddress(reader, entry).value;
            Masked(p) == p && !Is4In6(p.addr) && (InPrefix(p, a) <==> Denotes(reader, entry, a))
  {
    var block := reader.block(entry);
    if block.Some? {
      MaskedIsFaithful(block.value, a);
      MaskedOnce(block.value);
      MaskingDoesNotDisguise(block.value);
    } else {
      SingleIsFaithful(Unmap(reader.host(entry).value.addr), a);
    }
  }

  /** Those from ::ffff:0.0.0.0 to ::ffff:255.255.255.255, each standing for one of IPv4. */
  lemma Is4In6Exactly(a: Addr)
    ensures Is4In6(a) <==> a.family.V6? && 0xffff_0000_0000 <= a.number <= 0xffff_ffff_ffff
    ensures Is4In6(a) ==> Unmap(a).family.V4? && Unmap(a).number == a.number - 0xffff_0000_0000
    ensures !Is4In6(a) ==> Unmap(a) == a
  {
    Pow2Of32();
    ShlIsTimes(0xffff, 32);
    ShrExactly(a.number, 0xffff, 32);
  }

  /** A block is read unless it is an IPv4 one in disguise, with the length it has; an address unless
      it has a zone, as a block of it alone; and what is neither is not. */
  lemma ReadAddressExactly(reader: Reader, entry: string)
    ensures ReadAddress(reader, entry).Some? <==>
            || (reader.block(entry).Some? && !Is4In6(reader.block(entry).value.addr))
            || (reader.block(entry).None? && reader.host(entry).Some? && reader.host(entry).value.zone == "")
    ensures ReadAddress(reader, entry).Some? ==>
              var p := ReadAddress(reader, entry).value;
              p.bits == if reader.block(entry).Some? then reader.block(entry).value.bits else Width(p.addr.family)
  {
  }

  // Reading the list

  predicate Separates(c: char) {
    c in {',', ';', ' ', '\t', '\n', '\r'}
  }

  function WordLength(s: string): (n: nat)
    ensures n <= |s| && (n < |s| ==> Separates(s[n]))
    ensures forall i :: 0 <= i < n ==> !Separates(s[i])
  {
    if s == "" || Separates(s[0]) then 0 else 1 + WordLength(s[1..])
  }

  /** The entries of one line, whatever separates them. */
  function Fields(s: string): seq<string>
    decreases |s|
  {
    if s == "" then []
    else if Separates(s[0]) then Fields(s[1..])
    else [s[..WordLength(s)]] + Fields(s[WordLength(s)..])
  }

  predicate IsSeparator(c: char) {
    c == ',' || c == ';' || c == ' ' || c == '\t' || c == '\n' || c == '\r'
  }

  /** A line is cut at every separator, and what has none in it is one entry, unless it is empty. */
  lemma {:induction false} FieldsExactly(a: string, c: char, b: string)
    requires IsSeparator(c)
    ensures Fields(a + [c] + b) == Fields(a) + Fields(b)
    ensures (forall i :: 0 <= i < |a| ==> !IsSeparator(a[i])) ==> Fields(a) == if a == "" then [] else [a]
    decreases |a|
  {
    var s := a + [c] + b;
    if a == "" {
      assert s[1..] == b;
    } else if Separates(a[0]) {
      FieldsExactly(a[1..], c, b);
      assert s[1..] == a[1..] + [c] + b;
    } else {
      var n := WordLength(a);
      WordEnds(a, c, b);
      FieldsExactly(a[n..], c, b);
      CutWord(a, c, b, n);
      Regrouped([a[..n]], Fields(a[n..]), Fields(b));
      if forall i :: 0 <= i < |a| ==> !IsSeparator(a[i]) {
        assert n == |a| && a[..n] == a && a[n..] == "";
      }
    }
  }

  /** What a line starting with a word is cut into. */
  lemma CutWord(a: string, c: char, b: string, n: nat)
    requires a != "" && !Separates(a[0]) && n == WordLength(a) == WordLength(a + [c] + b)
    ensures Fields(a + [c] + b) == [a[..n]] + Fields(a[n..] + [c] + b)
    ensures Fields(a) == [a[..n]] + Fields(a[n..])
  {
    var s := a + [c] + b;
    assert s[..n] == a[..n] && s[n..] == a[n..] + [c] + b;
  }

  lemma WordEnds(a: string, c: char, b: string)
    requires Separates(c)
    ensures WordLength(a + [c] + b) == WordLength(a)
  {
    var s, n := a + [c] + b, WordLength(a);
    assert s[|a|] == c;
    assert forall i :: 0 <= i < |a| ==> s[i] == a[i];
    assert Separates(s[n]);
  }

  function Entries(sent: seq<string>): seq<string> {
    if sent == [] then [] else Entries(sent[..|sent| - 1]) + Fields(sent[|sent| - 1])
  }

  /** The entries are those of the lines, in order. */
  lemma {:induction false} EntriesInOrder(sent: seq<string>, more: seq<string>)
    ensures Entries(sent + more) == Entries(sent) + Entries(more)
    ensures |more| == 1 ==> Entries(more) == Fields(more[0])
  {
    if more == [] {
      assert sent + more == sent;
    } else {
      var init, last := LastApart(sent, more);
      EntriesInOrder(sent, init);
      EntriesOfOneMore(sent + init, last);
      EntriesOfOneMore(init, last);
      Regrouped(Entries(sent), Entries(init), Fields(last));
    }
  }

  lemma EntriesOfOneMore(sent: seq<string>, line: string)
    ensures Entries(sent + [line]) == Entries(sent) + Fields(line)
  {
    assert (sent + [line])[..|sent|] == sent;
  }

  /** The list after one more entry; a refusal stays. */
  function Accept(reader: Reader, so: Result, entry: string): Result {
    if !so.Allowed? then so
    else
      match ReadAddress(reader, entry)
      case None => BadAddress(entry)
      case Some(p) =>
        if p.bits == 0 then AnyAddressBlock(entry)
        else if p in so.blocks then so
        else Allowed(so.blocks + [p])
  }

  function AcceptAll(reader: Reader, entries: seq<string>): Result {
    if entries == [] then Allowed([])
    else Accept(reader, AcceptAll(reader, entries[..|entries| - 1]), entries[|entries| - 1])
  }

  function Outcome(reader: Reader, sent: seq<string>): Result {
    if |Entries(sent)| > MAX_ADDRESSES then TooMany else AcceptAll(reader, Entries(sent))
  }

  /** Refused for their number exactly when there are more than sixty-four; judged one by one otherwise. */
  lemma TooManyExactly(reader: Reader, sent: seq<string>)
    ensures Outcome(reader, sent) == TooMany <==> |Entries(sent)| > 64
    ensures |Entries(sent)| <= 64 ==> Judged(reader, Entries(sent), Outcome(reader, sent))
  {
    RefusalNamesTheFirst(reader, Entries(sent));
  }

  method ReadAddresses(reader: Reader, sent: seq<string>) returns (result: Result)
    ensures result == Outcome(reader, sent)
  {
    var entries: seq<string> := [];
    assert sent[..0] == [];
    for i := 0 to |sent|
      invariant entries == Entries(sent[..i])
    {
      assert sent[..i + 1][..i] == sent[..i];
      entries := entries + Fields(sent[i]);
    }
    assert sent[..|sent|] == sent;
    if |entries| > MAX_ADDRESSES {
      return TooMany;
    }
    result := ReadEntries(reader, entries);
  }

  method ReadEntries(reader: Reader, entries: seq<string>) returns (result: Result)
    ensures result == AcceptAll(reader, entries)
  {
    var allowed: seq<Prefix> := [];
    assert entries[..0] == [];
    for i := 0 to |entries|
      invariant AcceptAll(reader, entries[..i]) == Allowed(allowed)
    {
      var entry := entries[i];
      ghost var next := entries[..i + 1];
      assert next[..i] == entries[..i];
      var prefix := ReadAddress(reader, entry);
      if prefix.None? {
        RefusalStays(reader, entries, i + 1);
        return BadAddress(entry);
      }
      if prefix.value.bits == 0 {
        RefusalStays(reader, entries, i + 1);
        return AnyAddressBlock(entry);
      }
      if prefix.value !in allowed {
        allowed := allowed + [prefix.value];
      }
    }
    assert entries[..|entries|] == entries;
    return Allowed(allowed);
  }

  lemma {:induction false} RefusalStays(reader: Reader, entries: seq<string>, n: nat)
    requires n <= |entries| && !AcceptAll(reader, entries[..n]).Allowed?
    ensures AcceptAll(reader, entries) == AcceptAll(reader, entries[..n])
    decreases |entries|
  {
    if n == |entries| {
      assert entries[..n] == entries;
    } else {
      var init := entries[..|entries| - 1];
      assert init[..n] == entries[..n];
      RefusalStays(reader, init, n);
    }
  }

  /** An entry the list has room for. */
  predicate Acceptable(reader: Reader, entry: string) {
    ReadAddress(reader, entry).Some? && ReadAddress(reader, entry).value.bits > 0
  }

  predicate FirstRefused(reader: Reader, entries: seq<string>, k: int) {
    0 <= k < |entries| && !Acceptable(reader, entries[k]) && forall j :: 0 <= j < k ==> Acceptable(reader, entries[j])
  }

  /** An outcome that is an acceptance when every entry is acceptable, and names the first that is not. */
  ghost predicate Judged(reader: Reader, entries: seq<string>, so: Result) {
    && (so.Allowed? <==> forall i :: 0 <= i < |entries| ==> Acceptable(reader, entries[i]))
    && so != TooMany
    && (so.BadAddress? || so.AnyAddressBlock? ==>
          exists k :: FirstRefused(reader, entries, k) && entries[k] == so.entry)
    && (so.BadAddress? ==> ReadAddress(reader, so.entry).None?)
    && (so.AnyAddressBlock? ==> ReadAddress(reader, so.entry).Some? && ReadAddress(reader, so.entry).value.bits == 0)
  }

  lemma RefusedEarlier(reader: Reader, entries: seq<string>, last: string, k: int)
    requires FirstRefused(reader, entries, k)
    ensures FirstRefused(reader, entries + [last], k) && (entries + [last])[k] == entries[k]
  {
  }

  lemma RefusedNow(reader: Reader, entries: seq<string>, last: string)
    requires forall i :: 0 <= i < |entries| ==> Acceptable(reader, entries[i])
    ensures !Acceptable(reader, last) ==> FirstRefused(reader, entries + [last], |entries|)
    ensures Acceptable(reader, last) ==> forall i :: 0 <= i <= |entries| ==> Acceptable(reader, (entries + [last])[i])
  {
  }

  lemma OneMoreJudged(reader: Reader, entries: seq<string>, so: Result, last: string)
    requires Judged(reader, entries, so)
    ensures Judged(reader, entries + [last], Accept(reader, so, last))
  {
    if so.Allowed? {
      RefusedNow(reader, entries, last);
      assert (entries + [last])[|entries|] == last;
    } else {
      var k :| FirstRefused(reader, entries, k) && entries[k] == so.entry;
      RefusedEarlier(reader, entries, last, k);
    }
  }

  /** A list is accepted when every entry is; a refusal names the first one that is not. */
  lemma {:induction false} RefusalNamesTheFirst(reader: Reader, entries: seq<string>)
    ensures Judged(reader, entries, AcceptAll(reader, entries))
  {
    if entries != [] {
      var init, last := entries[..|entries| - 1], entries[|entries| - 1];
      RefusalNamesTheFirst(reader, init);
      OneMoreJudged(reader, init, AcceptAll(reader, init), last);
      assert entries == init + [last];
    }
  }

  predicate Distinct(blocks: seq<Prefix>) {
    forall i, j :: 0 <= i < j < |blocks| ==> blocks[i] != blocks[j]
  }

  /** Masked, of some length, and no IPv4 block in disguise. */
  predicate Stored(p: Prefix) {
    Masked(p) == p && p.bits > 0 && !Is4In6(p.addr)
  }

  predicate SomeDenotes(reader: Reader, entries: seq<string>, a: Addr) {
    exists k :: 0 <= k < |entries| && Denotes(reader, entries[k], a)
  }

  /** An accepted list holds blocks as the API stores them, each once. */
  lemma {:induction false} AcceptedBlocks(reader: Reader, entries: seq<string>)
    requires AcceptAll(reader, entries).Allowed?
    ensures var blocks := AcceptAll(reader, entries).blocks;
            Distinct(blocks) && |blocks| <= |entries| && forall p :: p in blocks ==> Stored(p)
  {
    if entries != [] {
      AcceptedBlocks(reader, entries[..|entries| - 1]);
      var last := entries[|entries| - 1];
      ReadAddressIsFaithful(reader, last, Addr(V4, 0));
    }
  }

  /** An accepted list lets in exactly the addresses its entries stand for. */
  lemma {:induction false} AcceptedUnion(reader: Reader, entries: seq<string>, a: Addr)
    requires AcceptAll(reader, entries).Allowed?
    ensures Covers(AcceptAll(reader, entries).blocks, a) <==> SomeDenotes(reader, entries, a)
  {
    if entries != [] {
      var init, last := entries[..|entries| - 1], entries[|entries| - 1];
      AcceptedUnion(reader, init, a);
      ReadAddressIsFaithful(reader, last, a);
      var before, p := AcceptAll(reader, init).blocks, ReadAddress(reader, last).value;
      assert entries == init + [last];
      if p in before {
        assert InPrefix(p, a) ==> Covers(before, a);
      } else {
        CoversAppend(before, p, a);
      }
      DenotesAppend(reader, init, last, a);
    }
  }

  lemma CoversAppend(blocks: seq<Prefix>, p: Prefix, a: Addr)
    ensures Covers(blocks + [p], a) <==> Covers(blocks, a) || InPrefix(p, a)
  {
    assert (blocks + [p])[|blocks|] == p;
    if i :| 0 <= i < |blocks| && InPrefix(blocks[i], a) {
      assert InPrefix((blocks + [p])[i], a);
    }
  }

  lemma DenotesAppend(reader: Reader, entries: seq<string>, entry: string, a: Addr)
    ensures SomeDenotes(reader, entries + [entry], a) <==> SomeDenotes(reader, entries, a) || Denotes(reader, entry, a)
  {
    assert (entries + [entry])[|entries|] == entry;
    if i :| 0 <= i < |entries| && Denotes(reader, entries[i], a) {
      assert Denotes(reader, (entries + [entry])[i], a);
    }
  }

  // Printing the list and reading it again

  /** How netip prints a block: as one word, which it reads back. */
  ghost predicate PrintsBack(reader: Reader, show: Prefix -> string) {
    forall p :: reader.block(show(p)) == Some(p)
                && show(p) != "" && forall i :: 0 <= i < |show(p)| ==> !Separates(show(p)[i])
  }

  function Shown(blocks: seq<Prefix>, show: Prefix -> string): seq<string> {
    seq(|blocks|, i requires 0 <= i < |blocks| => show(blocks[i]))
  }

  lemma OneWord(s: string)
    requires s != "" && forall i :: 0 <= i < |s| ==> !Separates(s[i])
    ensures Fields(s) == [s]
  {
    assert WordLength(s) == |s|;
    assert s[..|s|] == s && s[|s|..] == "";
  }

  lemma {:induction false} ShownEntries(reader: Reader, blocks: seq<Prefix>, show: Prefix -> string)
    requires PrintsBack(reader, show)
    ensures Entries(Shown(blocks, show)) == Shown(blocks, show)
  {
    if blocks != [] {
      var init, last := blocks[..|blocks| - 1], blocks[|blocks| - 1];
      ShownEntries(reader, init, show);
      OneWord(show(last));
      ShownStep(blocks, show);
      assert (Shown(init, show) + [show(last)])[..|init|] == Shown(init, show);
    }
  }

  lemma {:induction false} ShownIsAccepted(reader: Reader, blocks: seq<Prefix>, show: Prefix -> string)
    requires PrintsBack(reader, show) && Distinct(blocks)
    requires forall p :: p in blocks ==> Stored(p)
    ensures AcceptAll(reader, Shown(blocks, show)) == Allowed(blocks)
  {
    if blocks != [] {
      var init, last := blocks[..|blocks| - 1], blocks[|blocks| - 1];
      ShownIsAccepted(reader, init, show);
      ShownStep(blocks, show);
      assert blocks == init + [last] && last in blocks;
      OneMoreBlock(reader, init, last, show(last));
      AcceptedStep(reader, Shown(init, show), show(last));
    }
  }

  lemma ShownStep(blocks: seq<Prefix>, show: Prefix -> string)
    requires blocks != []
    ensures Shown(blocks, show) == Shown(blocks[..|blocks| - 1], show) + [show(blocks[|blocks| - 1])]
  {
  }

  lemma AcceptedStep(reader: Reader, entries: seq<string>, entry: string)
    ensures AcceptAll(reader, entries + [entry]) == Accept(reader, AcceptAll(reader, entries), entry)
  {
    assert (entries + [entry])[..|entries|] == entries;
  }

  lemma OneMoreBlock(reader: Reader, blocks: seq<Prefix>, p: Prefix, entry: string)
    requires p !in blocks && p.bits > 0 && ReadAddress(reader, entry) == Some(p)
    ensures Accept(reader, Allowed(blocks), entry) == Allowed(blocks + [p])
  {
  }

  /** The list the reader is shown, sent again, is read as itself. */
  lemma ShownListIsReadBack(reader: Reader, sent: seq<string>, show: Prefix -> string)
    requires PrintsBack(reader, show) && Outcome(reader, sent).Allowed?
    ensures Outcome(reader, Shown(Outcome(reader, sent).blocks, show)) == Outcome(reader, sent)
    ensures |Outcome(reader, sent).blocks| <= MAX_ADDRESSES
  {
    var blocks := Outcome(reader, sent).blocks;
    AcceptedBlocks(reader, Entries(sent));
    ShownEntries(reader, blocks, show);
    ShownIsAccepted(reader, blocks, show);
  }
}
