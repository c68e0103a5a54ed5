/**
 * Flashing a sysupgrade image, gateway/sbegw/otad.py: inspect, then write and read back root, then
 * kernel. Partitions are arrays; how a chunk lands on the device is up to the environment.
 */
module Firmware {
  import opened Wrappers
  import opened Texts
  import opened Octets

  const BOARD := "askey_sbe1v1k"
  const PREFIX := "sysupgrade-"
  const FIT_MAGIC: Bytes := [0xd0, 0x0d, 0xfe, 0xed]
  const SQUASHFS_MAGIC: Bytes := [0x68, 0x73, 0x71, 0x73]
  const MIN_KERNEL_BYTES := 0x10_0000
  const MIN_ROOTFS_BYTES := 0x100_0000
  const BLOCK := 0x10_0000

  /** A tar member: the size its header gives and the data that can be read. */
  datatype Member = Member(size: nat, data: Bytes)

  datatype Image = NotAFile | Unreadable | Tar(members: map<string, Member>)

  /** What is known of a target partition; capacity zero means it could not be read. */
  datatype Target = Target(present: bool, capacity: nat)

  datatype Payload = Root | Kernel

  function PayloadName(p: Payload): string {
    if p.Root? then "root" else "kernel"
  }

  // ---------------------------------------------------------------- inspection

  /** The part of a member name before its first slash, if it has one. */
  function TopDirectory(name: string): Option<string> {
    if name == "" then None
    else if name[0] == '/' then Some("")
    else
      var rest := TopDirectory(name[1..]);
      if rest.None? then None else Some([name[0]] + rest.value)
  }

  function Prefixes(members: map<string, Member>): set<string> {
    set n | n in members && TopDirectory(n).Some? :: TopDirectory(n).value
  }

  function MinBytes(p: Payload): nat {
    if p.Root? then MIN_ROOTFS_BYTES else MIN_KERNEL_BYTES
  }

  function Magic(p: Payload): Bytes {
    if p.Root? then SQUASHFS_MAGIC else FIT_MAGIC
  }

  datatype Problem =
    | NotFile | NotTar | ManyDirectories | WrongBoard
    | MissingPayload(p: Payload) | NoPartition(p: Payload) | TooBig(p: Payload)
    | Truncated(p: Payload) | BadMagic(p: Payload)

  datatype Report = Report(problems: seq<Problem>, board: string, sizes: map<Payload, nat>)

  function PayloadProblems(members: map<string, Member>, prefix: string, p: Payload, t: Target): seq<Problem> {
    var name := prefix + "/" + PayloadName(p);
    if name !in members then [MissingPayload(p)]
    else
      var m := members[name];
      (if !t.present then [NoPartition(p)] else if t.capacity != 0 && m.size > t.capacity then [TooBig(p)] else [])
      + (if m.size < MinBytes(p) then [Truncated(p)] else if !(Magic(p) <= m.data) then [BadMagic(p)] else [])
  }

  function Sizes(members: map<string, Member>, prefix: string): map<Payload, nat> {
    map p: Payload | p in {Root, Kernel} && prefix + "/" + PayloadName(p) in members ::
      members[prefix + "/" + PayloadName(p)].size
  }

  /** Everything checkable without writing anything. */
  method Inspect(image: Image, root: Target, kernel: Target) returns (report: Report)
    ensures report.problems == [] <==> Clean(image, root, kernel)
    ensures report.problems == [] ==>
              && report.board == BOARD
              && report.sizes == Sizes(image.members, Prefix(image.members))
              && Root in report.sizes && Kernel in report.sizes
  {
    if image.NotAFile? {
      return Report([NotFile], "", map[]);
    }
    if image.Unreadable? {
      return Report([NotTar], "", map[]);
    }
    var prefixes := Prefixes(image.members);
    if |prefixes| != 1 {
      return Report([ManyDirectories], "", map[]);
    }
    var prefix := Prefix(image.members);
    var board := Without(prefix, PREFIX);
    var problems: seq<Problem> := [];
    if board != BOARD {
      problems := problems + [WrongBoard];
    }
    problems := problems + PayloadProblems(image.members, prefix, Root, root);
    problems := problems + PayloadProblems(image.members, prefix, Kernel, kernel);
    report := Report(problems, board, Sizes(image.members, prefix));
    assert problems == [] <==> board == BOARD && PayloadProblems(image.members, prefix, Root, root) == []
                               && PayloadProblems(image.members, prefix, Kernel, kernel) == [];
  }

  /** The one directory of an image that has just one. */
  function Prefix(members: map<string, Member>): (p: string)
    ensures |Prefixes(members)| == 1 ==> Prefixes(members) == {p}
  {
    if Prefixes(members) == {} then "" else
      var p := Least(Prefixes(members));
      assert |Prefixes(members)| == 1 ==> |Prefixes(members) - {p}| == 0;
      assert |Prefixes(members)| == 1 ==> Prefixes(members) - {p} == {};
      p
  }

  predicate PayloadClean(members: map<string, Member>, prefix: string, p: Payload, t: Target) {
    var name := prefix + "/" + PayloadName(p);
    && name in members && t.present
    && (t.capacity != 0 ==> members[name].size <= t.capacity)
    && members[name].size >= MinBytes(p)
    && Magic(p) <= members[name].data
  }

  /** What a clean image is, without going through the checks in order. */
  predicate Clean(image: Image, root: Target, kernel: Target) {
    && image.Tar?
    && |Prefixes(image.members)| == 1
    && Without(Prefix(image.members), PREFIX) == BOARD
    && PayloadClean(image.members, Prefix(image.members), Root, root)
    && PayloadClean(image.members, Prefix(image.members), Kernel, kernel)
  }

  // ------------------------------------------------------------------- writing

  /**
   * The device contents after the k-th chunk is written: of the chunk's number, its offset, the chunk and
   * the contents before. Anything may land; only the length of the device stays.
   */
  type Landing = (nat, nat, Bytes, Bytes) -> Bytes

  function Landed(land: Landing, k: nat, offset: nat, chunk: Bytes, before: Bytes): (after: Bytes)
    ensures |after| == |before|
  {
    var after := land(k, offset, chunk, before);
    if |after| == |before| then after else before
  }

  /** Every chunk lands where it was sent and nowhere else. */
  ghost predicate Faithful(land: Landing) {
    forall k: nat, offset: nat, chunk: Bytes, before: Bytes :: offset + |chunk| <= |before| ==>
      land(k, offset, chunk, before) == before[..offset] + chunk + before[offset + |chunk|..]
  }

  ghost predicate Injective(digest: Bytes -> string) {
    forall a: Bytes, b: Bytes :: digest(a) == digest(b) ==> a == b
  }

  datatype UpdateError =
    | ShaMismatch
    | NotClean(problems: seq<Problem>)
    | Vanished(p: Payload)
    | DeviceFull(p: Payload)
    | ShortImage(p: Payload)
    | ReadBackDiffers(p: Payload)

  method Fill(device: array<Byte>, contents: Bytes)
    requires |contents| == device.Length
    modifies device
    ensures device[..] == contents
  {
    for j := 0 to |contents|
      invariant device[..j] == contents[..j]
    {
      device[j] := contents[j];
    }
    assert contents[..|contents|] == contents;
  }

  function ChunkSize(left: nat): nat {
    if left < BLOCK then left else BLOCK
  }

  /** The device after the chunks of `data` from `copied` on are written, stopping at one that does not fit. */
  function Sent(land: Landing, k: nat, copied: nat, data: Bytes, before: Bytes): (after: Bytes)
    requires copied <= |data|
    ensures |after| == |before|
    decreases |data| - copied
  {
    var n := ChunkSize(|data| - copied);
    if n == 0 || copied + n > |before| then before
    else Sent(land, k + 1, copied + n, data, Landed(land, k, copied, data[copied..copied + n], before))
  }

  /** Stream a payload onto its partition in chunks; `Ok` when exactly `size` bytes were sent. */
  method WriteChunks(p: Payload, data: Bytes, size: nat, device: array<Byte>, land: Landing)
    returns (r: Result<nat, UpdateError>)
    modifies device
    ensures r.Ok? <==> |data| == size <= device.Length
    ensures r.Err? ==> r.error in {DeviceFull(p), ShortImage(p)}
    ensures device[..] == Sent(land, 0, 0, data, old(device[..]))
  {
    var copied, k := 0, 0;
    ghost var after := Sent(land, 0, 0, data, device[..]);
    while copied < |data|
      invariant 0 <= copied <= |data| && copied <= device.Length
      invariant Sent(land, k, copied, data, device[..]) == after
    {
      var n := ChunkSize(|data| - copied);
      if copied + n > device.Length {
        return Err(DeviceFull(p));
      }
      Fill(device, Landed(land, k, copied, data[copied..copied + n], device[..]));
      copied, k := copied + n, k + 1;
    }
    if copied != size {
      return Err(ShortImage(p));
    }
    return Ok(copied);
  }

  /** When chunks land where they are sent, a payload that fits is written over the front and nothing else. */
  lemma {:induction false} SentFaithfully(land: Landing, k: nat, copied: nat, data: Bytes, before: Bytes)
    requires Faithful(land) && copied <= |data| && |data| <= |before| && before[..copied] == data[..copied]
    ensures Sent(land, k, copied, data, before) == data + before[|data|..]
    decreases |data| - copied
  {
    var n := ChunkSize(|data| - copied);
    if n == 0 {
      assert data[..copied] == data;
      assert before == before[..copied] + before[copied..];
    } else {
      var chunk := data[copied..copied + n];
      var next := Landed(land, k, copied, chunk, before);
      assert next == before[..copied] + chunk + before[copied + n..];
      assert data[..copied] + chunk == data[..copied + n];
      assert next[..copied + n] == data[..copied + n];
      SentFaithfully(land, k + 1, copied + n, data, next);
      assert next[|data|..] == before[|data|..];
    }
  }

  /** Hash the first `size` bytes back from the device, block by block. */
  method ReadBack(device: array<Byte>, size: nat, digest: Bytes -> string) returns (hash: string)
    requires size <= device.Length
    ensures hash == digest(device[..size])
  {
    var fed: Bytes := [];
    var remaining := size;
    while remaining > 0
      invariant 0 <= remaining <= size
      invariant fed == device[..size - remaining]
    {
      var n := if remaining < BLOCK then remaining else BLOCK;
      fed := fed + device[size - remaining..size - remaining + n];
      remaining := remaining - n;
    }
    hash := digest(fed);
  }

  /** Write one payload and hash what landed. */
  method WriteMember(p: Payload, members: map<string, Member>, board: string, size: nat, device: array<Byte>,
                     land: Landing, digest: Bytes -> string)
    returns (r: Result<string, UpdateError>)
    modifies device
    ensures r.Ok? <==> MemberName(board, p) in members && |members[MemberName(board, p)].data| == size <= device.Length
    ensures r.Ok? ==> r.value == digest(device[..size])
    ensures r.Err? ==> r.error in {Vanished(p), DeviceFull(p), ShortImage(p)}
    ensures device[..] == if MemberName(board, p) in members
                          then Sent(land, 0, 0, members[MemberName(board, p)].data, old(device[..]))
                          else old(device[..])
  {
    var name := MemberName(board, p);
    if name !in members {
      return Err(Vanished(p));
    }
    var sent := WriteChunks(p, members[name].data, size, device, land);
    if sent.Err? {
      return Err(sent.error);
    }
    var hash := ReadBack(device, size, digest);
    return Ok(hash);
  }

  function MemberName(board: string, p: Payload): string {
    PREFIX + board + "/" + PayloadName(p)
  }

  /** The payload an image carries for this board, as the writing half looks it up. */
  function PayloadOf(image: Image, p: Payload): Bytes
    requires image.Tar? && MemberName(BOARD, p) in image.members
  {
    image.members[MemberName(BOARD, p)].data
  }

  predicate Carries(image: Image, p: Payload) {
    image.Tar? && MemberName(BOARD, p) in image.members
  }

  /** The payload can be read in full and fits its partition. */
  predicate Whole(image: Image, p: Payload, room: nat) {
    && Carries(image, p)
    && |PayloadOf(image, p)| == image.members[MemberName(BOARD, p)].size <= room
  }

  // ------------------------------------------------ where the two halves differ

  lemma {:induction false} WithoutPrefix(board: string)
    ensures Without(PREFIX + board, PREFIX) == Without(board, PREFIX)
  {
    assert (PREFIX + board)[..|PREFIX|] == PREFIX && (PREFIX + board)[|PREFIX|..] == board;
  }

  lemma {:induction false} TopDirectoryOf(dir: string, name: string)
    requires '/' !in dir
    ensures TopDirectory(dir + "/" + name) == Some(dir)
  {
    if dir == "" {
      assert dir + "/" + name == "/" + name;
    } else {
      var full := dir + "/" + name;
      assert full[1..] == dir[1..] + "/" + name;
      assert full[0] == dir[0] && dir[0] in dir;
      TopDirectoryOf(dir[1..], name);
      assert [dir[0]] + dir[1..] == dir;
    }
  }

  /**
   * Inspection strips the prefix wherever it stands, writing puts it back in front: of the images that
   * inspect clean, those that can be written are exactly the ones whose directory is the prefix and the board.
   */
  lemma CleanIsWritableIff(image: Image, root: Target, kernel: Target)
    requires Clean(image, root, kernel)
    ensures Carries(image, Root) && Carries(image, Kernel) <==> Prefix(image.members) == PREFIX + BOARD
  {
    var prefix := Prefix(image.members);
    if Carries(image, Root) {
      CarriedPrefix(image, Root);
    }
  }

  /** Nothing is taken out of a text that lacks the last character of what is sought. */
  lemma {:induction false} WithoutAbsent(text: string, sub: string)
    requires sub != "" && sub[|sub| - 1] !in text
    ensures Without(text, sub) == text
    decreases |text|
  {
    if |text| >= |sub| {
      assert text[..|sub|] != sub by {
        assert text[..|sub|][|sub| - 1] == text[|sub| - 1] && text[|sub| - 1] in text;
      }
      WithoutAbsent(text[1..], sub);
    }
  }

  /** An image of exactly the two payloads, under one directory. */
  function ImageUnder(dir: string): Image {
    Tar(map[dir + "/root" := Member(MIN_ROOTFS_BYTES, SQUASHFS_MAGIC),
            dir + "/kernel" := Member(MIN_KERNEL_BYTES, FIT_MAGIC)])
  }

  const ANY_TARGET := Target(true, 0)

  lemma ImageUnderPrefix(dir: string)
    requires '/' !in dir
    ensures Prefixes(ImageUnder(dir).members) == {dir} && Prefix(ImageUnder(dir).members) == dir
  {
    var members := ImageUnder(dir).members;
    TopDirectoryOf(dir, "root");
    TopDirectoryOf(dir, "kernel");
    assert dir + "/" + "root" == dir + "/root" && dir + "/" + "kernel" == dir + "/kernel";
    assert dir + "/root" in members && TopDirectory(dir + "/root").value == dir;
    assert Prefixes(members) == {dir};
    assert |{dir}| == 1;
    assert Prefix(members) in Prefixes(members);
  }

  lemma ImageUnderIsClean(dir: string)
    requires '/' !in dir && Without(dir, PREFIX) == BOARD
    ensures Clean(ImageUnder(dir), ANY_TARGET, ANY_TARGET)
  {
    var members := ImageUnder(dir).members;
    ImageUnderPrefix(dir);
    assert dir + "/" + PayloadName(Root) == dir + "/root" && dir + "/" + PayloadName(Kernel) == dir + "/kernel";
    assert (dir + "/root")[|dir| + 1] == 'r' && (dir + "/kernel")[|dir| + 1] == 'k';
    assert PayloadClean(members, dir, Root, ANY_TARGET) && PayloadClean(members, dir, Kernel, ANY_TARGET);
  }

  lemma PrefixIsTakenOut(board: string)
    requires '-' !in board
    ensures Without(board, PREFIX) == board && Without(PREFIX + board, PREFIX) == board
  {
    WithoutAbsent(board, PREFIX);
    WithoutPrefix(board);
  }

  lemma BoardText()
    ensures '/' !in BOARD && '-' !in BOARD && '/' !in PREFIX
  {
  }

  lemma CleanUnder(dir: string, board: string)
    requires board == BOARD && '/' !in board && '-' !in board && '/' !in PREFIX
    requires dir == board || dir == PREFIX + board
    ensures Clean(ImageUnder(dir), ANY_TARGET, ANY_TARGET) && Prefix(ImageUnder(dir).members) == dir
  {
    PrefixIsTakenOut(board);
    ImageUnderIsClean(dir);
    ImageUnderPrefix(dir);
  }

  /** Under the bare board name such an image inspects clean and cannot be written; under the prefixed one it can. */
  lemma BareDirectoryIsCleanButUnwritable(dir: string)
    requires dir == BOARD || dir == PREFIX + BOARD
    ensures Clean(ImageUnder(dir), ANY_TARGET, ANY_TARGET)
    ensures Carries(ImageUnder(dir), Root) && Carries(ImageUnder(dir), Kernel) <==> dir == PREFIX + BOARD
  {
    BoardText();
    CleanUnder(dir, BOARD);
    CleanIsWritableIff(ImageUnder(dir), ANY_TARGET, ANY_TARGET);
  }

  lemma CarriedPrefix(image: Image, p: Payload)
    requires Carries(image, p)
    ensures PREFIX + BOARD in Prefixes(image.members)
  {
    TopDirectoryOf(PREFIX + BOARD, PayloadName(p));
    assert MemberName(BOARD, p) == (PREFIX + BOARD) + "/" + PayloadName(p);
    assert MemberName(BOARD, p) in image.members && TopDirectory(MemberName(BOARD, p)) == Some(PREFIX + BOARD);
  }

  lemma SizesAreThePayloads(image: Image, root: Target, kernel: Target)
    requires Clean(image, root, kernel)
    ensures forall p: Payload :: Carries(image, p) ==>
              p in Sizes(image.members, Prefix(image.members))
              && Sizes(image.members, Prefix(image.members))[p] == image.members[MemberName(BOARD, p)].size
  {
    forall p: Payload | Carries(image, p)
      ensures p in Sizes(image.members, Prefix(image.members))
      ensures Sizes(image.members, Prefix(image.members))[p] == image.members[MemberName(BOARD, p)].size
    {
      CarriedPrefix(image, p);
      assert Prefix(image.members) == PREFIX + BOARD;
      assert p == Root || p == Kernel;
    }
  }

  // ------------------------------------------------------------------- updating

  /** The device starts with what has the payload's digest: the payload, when no two byte strings share one. */
  ghost predicate Verified(image: Image, p: Payload, device: Bytes, digest: Bytes -> string) {
    && Carries(image, p) && |PayloadOf(image, p)| <= |device|
    && digest(device[..|PayloadOf(image, p)|]) == digest(PayloadOf(image, p))
  }

  /** Everything past the payload is as it was. */
  ghost predicate TailKept(image: Image, p: Payload, before: Bytes, after: Bytes) {
    |before| == |after|
    && (Carries(image, p) && |PayloadOf(image, p)| <= |before| ==>
          after[|PayloadOf(image, p)|..] == before[|PayloadOf(image, p)|..])
  }

  /** Write one payload and compare what landed with what the image holds. */
  method WriteVerified(p: Payload, image: Image, size: nat, device: array<Byte>, land: Landing, digest: Bytes -> string)
    returns (r: Result<(), UpdateError>)
    requires image.Tar? && (Carries(image, p) ==> size == image.members[MemberName(BOARD, p)].size)
    modifies device
    ensures r.Ok? ==> Verified(image, p, device[..], digest)
    ensures Faithful(land) ==> TailKept(image, p, old(device[..]), device[..])
    ensures Faithful(land) ==> (r.Ok? <==> Whole(image, p, device.Length))
  {
    ghost var before := device[..];
    var written := WriteMember(p, image.members, BOARD, size, device, land, digest);
    if Faithful(land) && Carries(image, p) && |PayloadOf(image, p)| <= device.Length {
      SentFaithfully(land, 0, 0, PayloadOf(image, p), before);
      assert device[..][..|PayloadOf(image, p)|] == PayloadOf(image, p);
    }
    if written.Err? {
      return Err(written.error);
    }
    if written.value != digest(PayloadOf(image, p)) {
      return Err(ReadBackDiffers(p));
    }
    return Ok(());
  }

  /** The writable payload of a clean image is the member that was inspected. */
  lemma CarriedIsInspected(image: Image, p: Payload, root: Target, kernel: Target)
    requires Clean(image, root, kernel) && Carries(image, p)
    ensures MemberName(BOARD, p) == Prefix(image.members) + "/" + PayloadName(p)
  {
    CarriedPrefix(image, p);
  }

  /** Every payload's partition has the room that was found for it, and the payload can be read in full. */
  predicate Measured(image: Image, p: Payload, t: Target, room: nat) {
    Carries(image, p) && t.capacity == room > 0
    && |PayloadOf(image, p)| == image.members[MemberName(BOARD, p)].size
  }

  /**
   * Inspection is enough: a clean image whose payloads can be read in full and whose partitions were measured is whole
   * and fits, so writing it faithfully does not fail half way.
   */
  lemma CleanImagesFit(image: Image, root: Target, kernel: Target, rootRoom: nat, kernelRoom: nat)
    requires Clean(image, root, kernel)
    requires Measured(image, Root, root, rootRoom) && Measured(image, Kernel, kernel, kernelRoom)
    ensures Whole(image, Root, rootRoom) && Whole(image, Kernel, kernelRoom)
    ensures root.present && kernel.present
  {
    CarriedIsInspected(image, Root, root, kernel);
    CarriedIsInspected(image, Kernel, root, kernel);
  }

  /**
   * A partition that verified against a clean image starts with what the boot loader looks for: a squashfs magic on
   * the root, a device tree magic on the kernel; and at least sixteen and one MiB of it verified, read in full.
   */
  lemma VerifiedBoots(image: Image, root: Target, kernel: Target, p: Payload, device: Bytes, digest: Bytes -> string)
    requires Clean(image, root, kernel) && Verified(image, p, device, digest) && Injective(digest)
    ensures |device| >= 4 && device[..4] == if p.Root? then [0x68, 0x73, 0x71, 0x73] else [0xd0, 0x0d, 0xfe, 0xed]
    ensures image.members[MemberName(BOARD, p)].size == |PayloadOf(image, p)| ==>
              |device| >= if p.Root? then 16 * 0x10_0000 else 0x10_0000
  {
    CarriedIsInspected(image, p, root, kernel);
    VerifiedIsThePayload(image, p, device, digest);
    var data := PayloadOf(image, p);
    assert Magic(p) <= data;
    assert device[..4] == device[..|data|][..4] == data[..4];
  }

  lemma VerifiedIsThePayload(image: Image, p: Payload, device: Bytes, digest: Bytes -> string)
    requires Verified(image, p, device, digest) && Injective(digest)
    ensures device[..|PayloadOf(image, p)|] == PayloadOf(image, p)
  {
  }

  /**
   * Validate, then write root, then kernel. `fileSha` is the image file's own hash.
   */
  method Apply(image: Image, fileSha: string, expectSha: Option<string>, rootTarget: Target, kernelTarget: Target,
               root: array<Byte>, kernel: array<Byte>, land: Landing, digest: Bytes -> string)
    returns (r: Result<(), UpdateError>)
    requires root != kernel
    modifies root, kernel
    // nothing is written unless the file is the expected one and inspection is clean
    ensures !MayStart(image, fileSha, expectSha, rootTarget, kernelTarget) ==>
              r.Err? && root[..] == old(root[..]) && kernel[..] == old(kernel[..])
    // no kernel byte changes unless root read back with the payload's own digest
    ensures kernel[..] != old(kernel[..]) ==> Verified(image, Root, root[..], digest)
    // on success both partitions start with their payloads, however chunks landed
    ensures r.Ok? ==> Verified(image, Root, root[..], digest) && Verified(image, Kernel, kernel[..], digest)
    ensures r.Ok? && Injective(digest) ==>
              && root[..|PayloadOf(image, Root)|] == PayloadOf(image, Root)
              && kernel[..|PayloadOf(image, Kernel)|] == PayloadOf(image, Kernel)
    // faithful writes leave everything past a payload alone, whether or not the update succeeds
    ensures Faithful(land) ==>
              && TailKept(image, Root, old(root[..]), root[..])
              && TailKept(image, Kernel, old(kernel[..]), kernel[..])
    // and with them the update succeeds exactly when it may start and both payloads are whole and fit
    ensures Faithful(land) ==>
              (r.Ok? <==> MayStart(image, fileSha, expectSha, rootTarget, kernelTarget)
                          && Whole(image, Root, root.Length) && Whole(image, Kernel, kernel.Length))
  {
    var report := Inspect(image, rootTarget, kernelTarget);
    if expectSha.Some? && expectSha.value != fileSha {
      return Err(ShaMismatch);
    }
    if report.problems != [] {
      return Err(NotClean(report.problems));
    }
    SizesAreThePayloads(image, rootTarget, kernelTarget);
    r := WriteVerified(Root, image, report.sizes[Root], root, land, digest);
    if r.Err? {
      return;
    }
    r := WriteVerified(Kernel, image, report.sizes[Kernel], kernel, land, digest);
    if r.Ok? && Injective(digest) {
      VerifiedIsThePayload(image, Root, root[..], digest);
      VerifiedIsThePayload(image, Kernel, kernel[..], digest);
    }
  }

  predicate MayStart(image: Image, fileSha: string, expectSha: Option<string>, root: Target, kernel: Target) {
    Clean(image, root, kernel) && (expectSha.None? || expectSha.value == fileSha)
  }
}
