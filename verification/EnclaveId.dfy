/** Enclave IDs: `generate_enclave_id` and `get_slot_id` of `enclave_proc/utils.rs` and `get_socket_path` of
    `common/mod.rs`. */
module EnclaveId {
  import opened NeTypes
  import opened Text

  /** `{:x}`. */
  function Hex(n: nat): string { Numeral(n, 16) }

  // ----- The "-enc" separator -----

  const SEP: string := "-enc"

  predicate SepAt(s: string, i: nat) {
    i + 4 <= |s| && s[i] == '-' && s[i + 1] == 'e' && s[i + 2] == 'n' && s[i + 3] == 'c'
  }

  ghost predicate HasSep(s: string) { exists i: nat :: SepAt(s, i) }

  /** The first place of the separator from `from` on. */
  function FirstSep(s: string, from: nat): (r: Option<nat>)
    ensures r.Some? ==> from <= r.value && SepAt(s, r.value) && forall i: nat :: from <= i < r.value ==> !SepAt(s, i)
    ensures r.None? ==> forall i: nat :: from <= i ==> !SepAt(s, i)
    decreases |s| - from
  {
    if from + 4 > |s| then None else if SepAt(s, from) then Some(from) else FirstSep(s, from + 1)
  }

  /** The last place of the separator before `to`. */
  function LastSep(s: string, to: nat): (r: Option<nat>)
    ensures r.Some? ==> r.value < to && SepAt(s, r.value) && forall i: nat :: r.value < i < to ==> !SepAt(s, i)
    ensures r.None? ==> forall i: nat :: i < to ==> !SepAt(s, i)
  {
    if to == 0 then None else if SepAt(s, to - 1) then Some(to - 1) else LastSep(s, to - 1)
  }

  /** The second piece of `split("-enc")`, if there is one. */
  function SecondToken(s: string): Option<string> {
    var first := FirstSep(s, 0);
    if first.None? then None
    else
      var start := first.value + 4;
      var second := FirstSep(s, start);
      Some(if second.None? then s[start..] else s[start..second.value])
  }

  /** The first piece of `rsplit("-enc")`. */
  function LastToken(s: string): string {
    var last := LastSep(s, |s|);
    if last.None? then s else s[last.value + 4..]
  }

  // ----- The operations -----

  /** `generate_enclave_id`; `tag` is the content of the board asset tag file, if there is one. */
  function GenerateEnclaveId(tag: Option<string>, slot: nat): string {
    Prefix(tag) + SEP + Hex(slot)
  }

  function Prefix(tag: Option<string>): string {
    if tag.Some? then Strip(tag.value) else "i-0000000000000000"
  }

  function GetSlotId(id: string): Option<nat> {
    var token := SecondToken(id);
    if token.None? then None else ParseUint(token.value, 16, 0x1_0000_0000_0000_0000)
  }

  /** The file name of `get_socket_path`. */
  function SocketName(id: string): string { LastToken(id) + ".sock" }

  lemma HexIsVisible(slot: nat)
    ensures Visible(Hex(slot))
  {
    NumeralCanonical(slot, 16);
  }

  lemma VisibleAppend(a: string, b: string)
    requires Visible(a) && Visible(b)
    ensures Visible(a + b)
  {
  }

  /** No ID contains whitespace; blanks around the tag, such as the newline at the end of its file, do not show. The ID
      of a tag without whitespace is the tag, "-enc" and the slot. */
  lemma IdIsVisible(before: string, tag: string, after: string, slot: nat)
    requires Blank(before) && Blank(after)
    ensures Visible(GenerateEnclaveId(Some(tag), slot)) && Visible(GenerateEnclaveId(None, slot))
    ensures GenerateEnclaveId(Some(before + tag + after), slot) == GenerateEnclaveId(Some(tag), slot)
    ensures Visible(tag) ==> GenerateEnclaveId(Some(tag), slot) == tag + "-enc" + Hex(slot)
    ensures GenerateEnclaveId(None, slot) == "i-0000000000000000-enc" + Hex(slot)
  {
    HexIsVisible(slot);
    StripKeepsVisible(tag);
    StripAround(before, tag, after);
    VisibleAppend(Strip(tag), SEP);
    VisibleAppend(Strip(tag) + SEP, Hex(slot));
    var none := "i-0000000000000000";
    assert none + SEP == "i-0000000000000000-enc";
    VisibleAppend(none, SEP);
    VisibleAppend(none + SEP, Hex(slot));
  }

  /** In an ID the separator stands right before the slot, and otherwise only where the tag has it. */
  lemma SepsOfId(tag: string, slot: nat, i: nat)
    ensures SepAt(tag + SEP + Hex(slot), i) <==> i == |tag| || SepAt(tag, i)
  {
    var id := tag + SEP + Hex(slot);
    assert forall k :: 0 <= k < |tag| ==> id[k] == tag[k];
    assert id[|tag|] == '-' && id[|tag| + 1] == 'e' && id[|tag| + 2] == 'n' && id[|tag| + 3] == 'c';
    assert forall k :: |tag| + 4 <= k < |id| ==> id[k] == Hex(slot)[k - |tag| - 4] && id[k] != '-';
  }

  /** The socket name is the slot's, for any tag. */
  lemma SocketNameIsSlot(tag: Option<string>, slot: nat)
    ensures SocketName(GenerateEnclaveId(tag, slot)) == Hex(slot) + ".sock"
  {
    var p, id := Prefix(tag), GenerateEnclaveId(tag, slot);
    forall i: nat ensures SepAt(id, i) <==> i == |p| || SepAt(p, i) { SepsOfId(p, slot, i); }
    assert SepAt(id, |p|);
    assert LastSep(id, |id|) == Some(|p|);
    assert id[|p| + 4..] == Hex(slot);
  }

  /** Distinct slots have distinct sockets, whatever the tags. */
  lemma SocketsDistinct(tag: Option<string>, tag': Option<string>, slot: nat, slot': nat)
    ensures SocketName(GenerateEnclaveId(tag, slot)) == SocketName(GenerateEnclaveId(tag', slot')) <==> slot == slot'
  {
    SocketNameIsSlot(tag, slot);
    SocketNameIsSlot(tag', slot');
    var a, b := Hex(slot) + ".sock", Hex(slot') + ".sock";
    assert a[..|a| - 5] == Hex(slot) && b[..|b| - 5] == Hex(slot');
    if a == b { NumeralInjective(slot, slot', 16); }
  }

  lemma TokenIsSlot(p: string, slot: nat)
    requires !HasSep(p)
    ensures SecondToken(p + SEP + Hex(slot)) == Some(Hex(slot))
  {
    var id := p + SEP + Hex(slot);
    forall i: nat ensures SepAt(id, i) <==> i == |p| {
      assert !SepAt(p, i);
      SepsOfId(p, slot, i);
    }
    assert SepAt(id, |p|);
    assert FirstSep(id, 0) == Some(|p|);
    assert FirstSep(id, |p| + 4).None?;
    assert id[|p| + 4..] == Hex(slot);
  }

  lemma SlotRecovered(tag: Option<string>, slot: nat)
    requires slot < 0x1_0000_0000_0000_0000 && !HasSep(Prefix(tag))
    ensures GetSlotId(GenerateEnclaveId(tag, slot)) == Some(slot)
  {
    TokenIsSlot(Prefix(tag), slot);
    NumeralRoundTrip(slot, 16, 0x1_0000_0000_0000_0000);
  }

  /** The piece of `p` behind its first separator, up to the second one or the end. */
  function Piece(p: string, start: nat): string
    requires start <= |p|
  {
    var second := FirstSep(p, start);
    p[start..if second.None? then |p| else second.value]
  }

  lemma FirstSepOfId(id: string, p: string, from: nat)
    requires from <= |p| && forall i: nat :: SepAt(id, i) <==> i == |p| || SepAt(p, i)
    ensures FirstSep(id, from) == Some(if FirstSep(p, from).None? then |p| else FirstSep(p, from).value)
  {
    assert SepAt(id, |p|);
  }

  lemma PrefixSlice(id: string, p: string, a: nat, b: nat)
    requires a <= b <= |p| <= |id| && id[..|p|] == p
    ensures id[a..b] == p[a..b]
  {
    forall i | a <= i < b ensures id[i] == p[i] { assert id[..|p|][i] == id[i]; }
  }

  lemma TokenOf(id: string, p: string)
    requires FirstSep(p, 0).Some? && |p| <= |id| && id[..|p|] == p
    requires forall i: nat :: SepAt(id, i) <==> i == |p| || SepAt(p, i)
    ensures SecondToken(id) == Some(Piece(p, FirstSep(p, 0).value + 4))
  {
    var start := FirstSep(p, 0).value + 4;
    FirstSepOfId(id, p, 0);
    FirstSepOfId(id, p, start);
    PrefixSlice(id, p, start, FirstSep(id, start).value);
  }

  /** With the separator in the tag, the piece that is parsed is a piece of the tag. */
  lemma TokenFromTag(p: string, slot: nat)
    requires HasSep(p)
    ensures FirstSep(p, 0).Some?
    ensures SecondToken(p + SEP + Hex(slot)) == Some(Piece(p, FirstSep(p, 0).value + 4))
  {
    var k: nat :| SepAt(p, k);
    var id := p + SEP + Hex(slot);
    forall i: nat ensures SepAt(id, i) <==> i == |p| || SepAt(p, i) { SepsOfId(p, slot, i); }
    assert id[..|p|] == p;
    TokenOf(id, p);
  }

  /** `get_slot_id` inverts `generate_enclave_id` for all slots exactly when the tag, without its whitespace,
      does not contain the separator. */
  lemma RoundTripExact(tag: Option<string>)
    ensures (forall slot: nat :: slot < 0x1_0000_0000_0000_0000 ==>
               GetSlotId(GenerateEnclaveId(tag, slot)) == Some(slot))
       <==> !HasSep(Prefix(tag))
  {
    if HasSep(Prefix(tag)) {
      TokenFromTag(Prefix(tag), 0);
      TokenFromTag(Prefix(tag), 1);
      assert GetSlotId(GenerateEnclaveId(tag, 0)) == GetSlotId(GenerateEnclaveId(tag, 1));
    } else {
      forall slot: nat | slot < 0x1_0000_0000_0000_0000 ensures GetSlotId(GenerateEnclaveId(tag, slot)) == Some(slot) {
        SlotRecovered(tag, slot);
      }
    }
  }

  /** A tag for which it does not. */
  lemma TagWithSeparator()
    ensures HasSep(Prefix(Some("a-enc")))
    ensures GetSlotId(GenerateEnclaveId(Some("a-enc"), 1)) == None
  {
    var tag := "a-enc";
    StripKeepsVisible(tag);
    assert SepAt(tag, 1);
    var id := GenerateEnclaveId(Some(tag), 1);
    assert Hex(1) == "1" && id == "a-enc-enc1";
    assert SepAt(id, 1) && !SepAt(id, 0) && SepAt(id, 5);
    assert FirstSep(id, 0) == Some(1) && FirstSep(id, 5) == Some(5);
    assert id[5..5] == "";
  }
}
