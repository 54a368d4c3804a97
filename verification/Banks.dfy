/** Resident banks (ko/bank.c:67-104, 168-248, 328-337): the state behind the lock, and every critical
    section that changes it. */
module Banks {
  import opened Format
  import opened Counting

  datatype Bank = Bank(tag: string, source: string, uuid: seq<byte>, extent: nat, size: nat, metadata: nat,
                       preload: bool, claimed: bool)

  datatype Error = Fine | Exists | NotFound | Busy | Stopped | Again | Failed

  /** The byte counters. */
  datatype Ledger = Ledger(loader: int, imported: int, loaderImage: int, importedImage: int, metadata: int)

  datatype State = State(banks: seq<Bank>, active: int, stopping: bool, generation: nat, bytes: Ledger)

  const NO_BYTES := Ledger(0, 0, 0, 0, 0)

  // ---------------------------------------------------------------- counters

  function Share(b: Bank): Ledger {
    if b.preload then Ledger(b.extent, 0, b.size, 0, b.metadata) else Ledger(0, b.extent, 0, b.size, b.metadata)
  }

  function Plus(a: Ledger, b: Ledger): Ledger {
    Ledger(a.loader + b.loader, a.imported + b.imported, a.loaderImage + b.loaderImage,
           a.importedImage + b.importedImage, a.metadata + b.metadata)
  }

  function Minus(a: Ledger, b: Ledger): Ledger {
    Ledger(a.loader - b.loader, a.imported - b.imported, a.loaderImage - b.loaderImage,
           a.importedImage - b.importedImage, a.metadata - b.metadata)
  }

  function Total(banks: seq<Bank>): Ledger {
    if banks == [] then NO_BYTES else Plus(Share(banks[0]), Total(banks[1..]))
  }

  lemma {:induction false} TotalWithout(banks: seq<Bank>, i: nat)
    requires i < |banks|
    ensures Total(Without(banks, i)) == Minus(Total(banks), Share(banks[i]))
  {
    if i > 0 {
      TotalWithout(banks[1..], i - 1);
      assert Without(banks, i) == [banks[0]] + Without(banks[1..], i - 1);
    } else {
      assert Without(banks, 0) == banks[1..];
    }
  }

  lemma {:induction false} TotalFlagged(banks: seq<Bank>, i: nat, claimed: bool)
    requires i < |banks|
    ensures Total(banks[i := banks[i].(claimed := claimed)]) == Total(banks)
  {
    var marked := banks[i := banks[i].(claimed := claimed)];
    if i > 0 {
      TotalFlagged(banks[1..], i - 1, claimed);
      assert marked == [banks[0]] + banks[1..][i - 1 := banks[1..][i - 1].(claimed := claimed)];
    } else {
      assert marked[1..] == banks[1..];
    }
  }

  // ---------------------------------------------------------------- critical sections

  /** The first bank of that tag. */
  function Find(banks: seq<Bank>, tag: string): (r: Option<nat>)
    ensures r.Some? ==> r.value < |banks| && banks[r.value].tag == tag
    ensures r.None? ==> forall i: nat :: i < |banks| ==> banks[i].tag != tag
  {
    if banks == [] then None
    else if banks[0].tag == tag then Some(0)
    else
      var rest := Find(banks[1..], tag);
      assert rest.None? ==> forall i: nat :: 0 < i < |banks| ==> banks[i] == banks[1..][i - 1];
      if rest.None? then None else Some(rest.value + 1)
  }

  function Published(s: State, b: Bank): (State, Error) {
    if Find(s.banks, b.tag).Some? then (s, Exists)
    else (s.(banks := [b] + s.banks, generation := s.generation + 1, bytes := Plus(s.bytes, Share(b))), Fine)
  }

  function Flag(s: State, i: nat, claimed: bool): State
    requires i < |s.banks|
  {
    s.(banks := s.banks[i := s.banks[i].(claimed := claimed)], generation := s.generation + 1)
  }

  function Claimed(s: State, tag: string): (State, Error) {
    var i := Find(s.banks, tag);
    if s.stopping then (s, Stopped)
    else if i.None? then (s, NotFound)
    else if s.banks[i.value].claimed then (s, Busy)
    else (Flag(s, i.value, true), Fine)
  }

  function Removed(s: State, tag: string): (State, Error) {
    var i := Find(s.banks, tag);
    if i.None? then (s, NotFound)
    else if s.banks[i.value].claimed then (s, Busy)
    else (s.(banks := Without(s.banks, i.value), generation := s.generation + 1,
             bytes := Minus(s.bytes, Share(s.banks[i.value]))), Fine)
  }

  /** A row of a listing, and the generation it is of. */
  datatype Row = Row(tag: string, source: string, uuid: seq<byte>, size: nat, extent: nat, preload: bool, claimed: bool)

  function RowOf(b: Bank): Row {
    Row(b.tag, b.source, b.uuid, b.size, b.extent, b.preload, b.claimed)
  }

  /** A preloaded bank's bytes are counted with the loader's, an imported one's with the imported. */
  predicate Moved(before: Ledger, after: Ledger, b: Bank, times: int) {
    && after.metadata == before.metadata + times * b.metadata
    && after.loader == before.loader + (if b.preload then times * b.extent else 0)
    && after.loaderImage == before.loaderImage + (if b.preload then times * b.size else 0)
    && after.imported == before.imported + (if b.preload then 0 else times * b.extent)
    && after.importedImage == before.importedImage + (if b.preload then 0 else times * b.size)
  }

  function Listed(s: State, index: nat, generation: nat): Error {
    if index > 0 && generation != s.generation then Again
    else if index >= |s.banks| then NotFound
    else Fine
  }

  function Stop(s: State): (State, Error) {
    if s.banks != [] || s.active != 0 then (s, Busy) else (s.(stopping := true), Fine)
  }

  // ---------------------------------------------------------------- the module's own variables

  class Registry {
    var banks: seq<Bank>
    var active: int
    var stopping: bool
    var generation: nat
    var bytes: Ledger

    ghost function Now(): State
      reads this
    {
      State(banks, active, stopping, generation, bytes)
    }

    constructor ()
      ensures Now() == State([], 0, false, 0, NO_BYTES)
    {
      banks, active, stopping, generation, bytes := [], 0, false, 0, NO_BYTES;
    }

    /** Walk the list to the tag. */
    method FindBank(tag: string) returns (r: Option<nat>)
      ensures r == Find(banks, tag)
    {
      var i := 0;
      while i < |banks| && banks[i].tag != tag
        invariant i <= |banks|
        invariant Find(banks, tag) == (var rest := Find(banks[i..], tag);
                                         if rest.None? then None else Some(rest.value + i))
      {
        i := i + 1;
      }
      r := if i < |banks| then Some(i) else None;
    }

    method Publish(b: Bank) returns (error: Error)
      modifies this
      ensures (Now(), error) == Published(old(Now()), b)
      ensures error == if exists i: nat {:trigger old(banks)[i]} ::
                i < |old(banks)| && old(banks)[i].tag == b.tag then Exists
                       else Fine
      ensures error == Exists ==> Now() == old(Now())
      ensures error == Fine ==> banks == [b] + old(banks) && generation == old(generation) + 1
                                && active == old(active) && stopping == old(stopping)
      ensures error == Fine ==> Moved(old(bytes), bytes, b, 1)
    {
      var found := FindBank(b.tag);
      if found.Some? {
        return Exists;
      }
      banks, generation := [b] + banks, generation + 1;
      bytes := bytes.(metadata := bytes.metadata + b.metadata);
      if b.preload {
        bytes := bytes.(loader := bytes.loader + b.extent, loaderImage := bytes.loaderImage + b.size);
      } else {
        bytes := bytes.(imported := bytes.imported + b.extent, importedImage := bytes.importedImage + b.size);
      }
      error := Fine;
    }

    method Claim(tag: string) returns (error: Error, bank: Option<Bank>)
      modifies this
      ensures (Now(), error) == Claimed(old(Now()), tag)
      ensures bank.Some? <==> error == Fine
      ensures error == Stopped <==> stopping
      ensures error == NotFound <==> !stopping && forall i: nat {:trigger banks[i]} :: i < |banks| ==>
                banks[i].tag != tag
      ensures error == Busy ==>
                exists i: nat {:trigger banks[i]} :: i < |banks| && banks[i].tag == tag && banks[i].claimed
      ensures error != Fine ==> Now() == old(Now())
      ensures error == Fine ==> generation == old(generation) + 1 && active == old(active) && bytes == old(bytes)
      ensures error == Fine ==>
                exists i: nat {:trigger banks[i]} ::
                  && i < |banks| && banks[i].tag == tag && !old(banks)[i].claimed
                  && banks == old(banks)[i := old(banks)[i].(claimed := true)]
      ensures bank.Some? ==> bank.value in banks && bank.value.tag == tag && bank.value.claimed
    {
      var found := FindBank(tag);
      bank := None;
      if stopping {
        return Stopped, None;
      }
      if found.None? {
        return NotFound, None;
      }
      var b := banks[found.value];
      if b.claimed {
        return Busy, None;
      }
      banks := banks[found.value := b.(claimed := true)];
      generation := generation + 1;
      error, bank := Fine, Some(banks[found.value]);
    }

    /** The pointer of the source is the bank's place in the list. */
    method Release(i: nat)
      requires i < |banks| && banks[i].claimed
      modifies this
      ensures Now() == Flag(old(Now()), i, false)
      ensures banks == old(banks)[i := old(banks)[i].(claimed := false)] && generation == old(generation) + 1
      ensures active == old(active) && stopping == old(stopping) && bytes == old(bytes)
    {
      banks := banks[i := banks[i].(claimed := false)];
      generation := generation + 1;
    }

    /** The removal part of a discard. */
    method Remove(tag: string) returns (error: Error)
      modifies this
      ensures (Now(), error) == Removed(old(Now()), tag)
      ensures error == NotFound <==> forall i: nat {:trigger old(banks)[i]} :: i < |old(banks)| ==>
                old(banks)[i].tag != tag
      ensures error == Busy ==>
                exists i: nat {:trigger old(banks)[i]} ::
                  i < |old(banks)| && old(banks)[i].tag == tag && old(banks)[i].claimed
      ensures error != Fine ==> Now() == old(Now())
      ensures error == Fine ==> generation == old(generation) + 1 && active == old(active) && stopping == old(stopping)
      ensures error == Fine ==>
                exists i: nat {:trigger old(banks)[i]} ::
                  && i < |old(banks)| && old(banks)[i].tag == tag && !old(banks)[i].claimed
                  && banks == old(banks)[..i] + old(banks)[i + 1..] && Moved(old(bytes), bytes, old(banks)[i], -1)
    {
      var found := FindBank(tag);
      if found.None? {
        return NotFound;
      }
      var b := banks[found.value];
      if b.claimed {
        return Busy;
      }
      banks := Without(banks, found.value);
      generation := generation + 1;
      bytes := bytes.(metadata := bytes.metadata - b.metadata);
      if b.preload {
        bytes := bytes.(loader := bytes.loader - b.extent, loaderImage := bytes.loaderImage - b.size);
      } else {
        bytes := bytes.(imported := bytes.imported - b.extent, importedImage := bytes.importedImage - b.size);
      }
      error := Fine;
    }

    /** One row of a listing. */
    method List(index: nat, generationIn: nat) returns (error: Error, row: Option<Row>)
      ensures error == Listed(Now(), index, generationIn)
      ensures error == Again <==> index > 0 && generationIn != generation
      ensures error == NotFound <==> (index == 0 || generationIn == generation) && index >= |banks|
      ensures row.Some? <==> index < |banks| && (index == 0 || generationIn == generation)
      ensures row.Some? ==>
                var b := banks[index];
                && row.value.tag == b.tag && row.value.source == b.source && row.value.uuid == b.uuid
                && row.value.size == b.size && row.value.extent == b.extent && row.value.preload == b.preload
                && row.value.claimed == b.claimed
    {
      if index > 0 && generationIn != generation {
        return Again, None;
      }
      var i := 0;
      while i < |banks| && i < index
        invariant i <= |banks| && i <= index
      {
        i := i + 1;
      }
      if i == |banks| {
        return NotFound, None;
      }
      error, row := Fine, Some(RowOf(banks[i]));
    }

    /** Every call into the control device is counted while it lasts, and none starts once the module stops. */
    method Enter() returns (error: Error)
      modifies this
      ensures error == if old(stopping) then Stopped else Fine
      ensures Now() == if old(stopping) then old(Now()) else old(Now()).(active := old(active) + 1)
    {
      if stopping {
        return Stopped;
      }
      active := active + 1;
      error := Fine;
    }

    method Leave()
      modifies this
      ensures Now() == old(Now()).(active := old(active) - 1)
    {
      active := active - 1;
    }

    method Uninit() returns (error: Error)
      modifies this
      ensures (Now(), error) == Stop(old(Now()))
    {
      if banks != [] || active != 0 {
        return Busy;
      }
      stopping := true;
      error := Fine;
    }
  }
}

/** All interleavings of the callers of the bank control device and of the mounts that hold banks
    (ko/bank.c, ko/femtoctl.c:37-46). */
module BankRuns {
  import opened Format
  import opened Counting
  import opened Banks

  /** Where a caller is while it does not hold the lock. */
  datatype Phase = Importing(tag: string) | Discarding(tag: string) | Leaving

  /** The module's variables, the callers inside `bank_ioctl`, and the banks that mounts hold. */
  datatype World = World(kernel: State, inside: map<nat, Phase>, held: map<nat, Bank>)

  datatype Action =
    | EnterList(caller: nat)
    | EnterAdd(caller: nat, tag: string)
    | EnterDiscard(caller: nat, tag: string)
    | Imported(caller: nat, bank: Option<Bank>)
    | LinkerBusy(caller: nat)
    | LinkerFree(caller: nat)
    | Leave(caller: nat)
    | Adopt(preloaded: Bank)
    | Claim(mount: nat, tag: string)
    | Release(mount: nat)
    | Unload

  predicate Enabled(w: World, a: Action) {
    match a
    case EnterList(t) => t !in w.inside
    case EnterAdd(t, _) => t !in w.inside
    case EnterDiscard(t, _) => t !in w.inside
    case Imported(t, b) => t in w.inside && w.inside[t].Importing? &&
                           (b.Some? ==> b.value.tag == w.inside[t].tag && !b.value.preload && !b.value.claimed)
    case LinkerBusy(t) => t in w.inside && w.inside[t].Discarding?
    case LinkerFree(t) => t in w.inside && w.inside[t].Discarding?
    case Leave(t) => t in w.inside && w.inside[t].Leaving?
    case Adopt(b) => !w.kernel.stopping && b.preload && !b.claimed
    case Claim(m, _) => m !in w.held
    case Release(m) => m in w.held
    case Unload => true
  }

  /** Entering counts the caller, unless the module is going away. */
  function Enter(w: World, t: nat, phase: Phase): World {
    if w.kernel.stopping then w
    else w.(kernel := w.kernel.(active := w.kernel.active + 1), inside := w.inside[t := phase])
  }

  function Exit(w: World, t: nat): World {
    w.(kernel := w.kernel.(active := w.kernel.active - 1), inside := w.inside - {t})
  }

  function Do(w: World, a: Action): World
    requires Enabled(w, a)
  {
    match a
    case EnterList(t) => Enter(w, t, Leaving)
    case EnterAdd(t, tag) => Enter(w, t, if Find(w.kernel.banks, tag).Some? then Leaving else Importing(tag))
    case EnterDiscard(t, tag) => Enter(w, t, Discarding(tag))
    case Imported(t, b) =>
      w.(kernel := if b.Some? then Published(w.kernel, b.value).0 else w.kernel, inside := w.inside[t := Leaving])
    case LinkerBusy(t) => Exit(w, t)
    case LinkerFree(t) => w.(kernel := Removed(w.kernel, w.inside[t].tag).0, inside := w.inside[t := Leaving])
    case Leave(t) => Exit(w, t)
    case Adopt(b) => w.(kernel := Published(w.kernel, b).0)
    case Claim(m, tag) =>
      var (s, error) := Claimed(w.kernel, tag);
      if error == Fine then World(s, w.inside, w.held[m := s.banks[Find(w.kernel.banks, tag).value]]) else w
    case Release(m) =>
      var i := Find(w.kernel.banks, w.held[m].tag);
      if i.Some? then World(Flag(w.kernel, i.value, false), w.inside, w.held - {m}) else w
    case Unload => w.(kernel := Stop(w.kernel).0)
  }

  // ---------------------------------------------------------------- what every step keeps

  ghost predicate UniqueLabels(banks: seq<Bank>) {
    forall i: nat, j: nat :: i < j < |banks| ==> banks[i].tag != banks[j].tag
  }

  /** Mounts hold exactly the claimed banks, each its own. */
  ghost predicate HeldOk(banks: seq<Bank>, held: map<nat, Bank>) {
    && (forall m: nat :: m in held ==> held[m] in banks && held[m].claimed)
    && (forall m: nat, n: nat :: m in held && n in held && held[m].tag == held[n].tag ==> m == n)
    && (forall i: nat :: i < |banks| && banks[i].claimed ==> exists m: nat :: m in held && held[m] == banks[i])
  }

  ghost predicate Good(w: World) {
    && UniqueLabels(w.kernel.banks)
    && HeldOk(w.kernel.banks, w.held)
    && w.kernel.bytes == Total(w.kernel.banks)
    && w.kernel.active == |w.inside|
    && (w.kernel.stopping ==> w.kernel.banks == [] && w.inside == map[])
  }

  const START := World(State([], 0, false, 0, NO_BYTES), map[], map[])

  lemma StartGood()
    ensures Good(START)
  {
  }

  lemma PublishKeeps(w: World, b: Bank)
    requires Good(w) && !w.kernel.stopping && !b.claimed
    ensures Good(w.(kernel := Published(w.kernel, b).0))
  {
    var s := Published(w.kernel, b).0;
    if Find(w.kernel.banks, b.tag).None? {
      assert s.banks[1..] == w.kernel.banks;
      assert forall i: nat :: 0 < i < |s.banks| ==> s.banks[i] == w.kernel.banks[i - 1];
      assert HeldOk(s.banks, w.held);
    }
  }

  lemma RemoveKeeps(w: World, tag: string)
    requires Good(w)
    ensures Good(w.(kernel := Removed(w.kernel, tag).0))
  {
    var r := Find(w.kernel.banks, tag);
    if r.Some? && !w.kernel.banks[r.value].claimed {
      TotalWithout(w.kernel.banks, r.value);
      WithoutKeeps(w.kernel.banks, w.held, r.value);
    }
  }

  /** Taking out an unclaimed bank leaves labels unique and mounts with what they hold. */
  lemma WithoutKeeps(banks: seq<Bank>, held: map<nat, Bank>, i: nat)
    requires UniqueLabels(banks) && HeldOk(banks, held) && i < |banks| && !banks[i].claimed
    ensures UniqueLabels(Without(banks, i)) && HeldOk(Without(banks, i), held)
  {
    var rest := Without(banks, i);
    forall k: nat | k < |rest|
      ensures rest[k] == banks[if k < i then k else k + 1]
    {
    }
    forall m: nat | m in held
      ensures held[m] in rest
    {
      var k: nat :| k < |banks| && banks[k] == held[m];
      assert rest[if k < i then k else k - 1] == held[m];
    }
  }

  /** The one bank of its tag. */
  lemma OnlyOne(banks: seq<Bank>, i: nat, tag: string)
    requires UniqueLabels(banks) && i < |banks| && banks[i].tag == tag
    ensures Find(banks, tag) == Some(i)
  {
  }

  lemma ClaimKeeps(w: World, m: nat, tag: string)
    requires Good(w) && m !in w.held
    ensures Good(Do(w, Claim(m, tag)))
  {
    var (s, error) := Claimed(w.kernel, tag);
    if error == Fine {
      var i := Find(w.kernel.banks, tag).value;
      TotalFlagged(w.kernel.banks, i, true);
      ClaimHolds(w.kernel.banks, w.held, i, m);
    }
  }

  lemma ClaimHolds(banks: seq<Bank>, held: map<nat, Bank>, i: nat, m: nat)
    requires UniqueLabels(banks) && HeldOk(banks, held) && i < |banks| && !banks[i].claimed && m !in held
    ensures var banks' := banks[i := banks[i].(claimed := true)];
            UniqueLabels(banks') && HeldOk(banks', held[m := banks'[i]])
  {
    var banks' := banks[i := banks[i].(claimed := true)];
    var held' := held[m := banks'[i]];
    forall n: nat | n in held
      ensures held[n] in banks' && held[n].tag != banks[i].tag
    {
      var k: nat :| k < |banks| && banks[k] == held[n];
      assert banks'[k] == held[n];
    }
    forall k: nat | k < |banks'| && banks'[k].claimed
      ensures exists n: nat :: n in held' && held'[n] == banks'[k]
    {
      if k == i {
        assert m in held' && held'[m] == banks'[k];
      } else {
        var n: nat :| n in held && held[n] == banks[k];
        assert n in held' && held'[n] == banks'[k];
      }
    }
  }

  lemma ReleaseKeeps(w: World, m: nat)
    requires Good(w) && m in w.held
    ensures Good(Do(w, Release(m)))
    ensures Find(w.kernel.banks, w.held[m].tag).Some?
  {
    var i := HeldWhere(w.kernel.banks, w.held, m);
    TotalFlagged(w.kernel.banks, i, false);
    ReleaseHolds(w.kernel.banks, w.held, i, m);
  }

  lemma HeldWhere(banks: seq<Bank>, held: map<nat, Bank>, m: nat) returns (i: nat)
    requires UniqueLabels(banks) && HeldOk(banks, held) && m in held
    ensures i < |banks| && banks[i] == held[m] && Find(banks, held[m].tag) == Some(i)
  {
    i :| i < |banks| && banks[i] == held[m];
    OnlyOne(banks, i, held[m].tag);
  }

  lemma ReleaseHolds(banks: seq<Bank>, held: map<nat, Bank>, i: nat, m: nat)
    requires UniqueLabels(banks) && HeldOk(banks, held) && m in held && i < |banks| && banks[i] == held[m]
    ensures var banks' := banks[i := banks[i].(claimed := false)];
            UniqueLabels(banks') && HeldOk(banks', held - {m})
  {
    var banks' := banks[i := banks[i].(claimed := false)];
    var held' := held - {m};
    forall n: nat | n in held'
      ensures held'[n] in banks'
    {
      var k: nat :| k < |banks| && banks[k] == held[n];
      assert k != i;
      assert banks'[k] == held[n];
    }
    forall k: nat | k < |banks'| && banks'[k].claimed
      ensures exists n: nat :: n in held' && held'[n] == banks'[k]
    {
      var n: nat :| n in held && held[n] == banks[k];
      assert n in held' && held'[n] == banks'[k];
    }
  }

  lemma EnterKeeps(w: World, t: nat, phase: Phase)
    requires Good(w) && t !in w.inside
    ensures Good(Enter(w, t, phase))
  {
    assert w.inside[t := phase].Keys == w.inside.Keys + {t};
  }

  lemma ExitKeeps(w: World, t: nat)
    requires Good(w) && t in w.inside
    ensures Good(Exit(w, t))
  {
    assert (w.inside - {t}).Keys == w.inside.Keys - {t};
  }

  lemma MoveKeeps(w: World, t: nat, phase: Phase)
    requires Good(w) && t in w.inside
    ensures Good(w.(inside := w.inside[t := phase])) && !w.kernel.stopping
  {
    assert w.inside[t := phase].Keys == w.inside.Keys;
  }

  /** Every step of every caller keeps labels unique, claims exact, counters right, and the module loaded
      while anyone is inside. */
  lemma StepKeeps(w: World, a: Action)
    requires Good(w) && Enabled(w, a)
    ensures Good(Do(w, a))
  {
    match a
    case EnterList(t) => EnterKeeps(w, t, Leaving);
    case EnterAdd(t, tag) => EnterKeeps(w, t, if Find(w.kernel.banks, tag).Some? then Leaving else Importing(tag));
    case EnterDiscard(t, tag) => EnterKeeps(w, t, Discarding(tag));
    case Imported(t, b) =>
      MoveKeeps(w, t, Leaving);
      if b.Some? {
        PublishKeeps(w.(inside := w.inside[t := Leaving]), b.value);
      }
    case LinkerBusy(t) => ExitKeeps(w, t);
    case LinkerFree(t) =>
      MoveKeeps(w, t, Leaving);
      RemoveKeeps(w.(inside := w.inside[t := Leaving]), w.inside[t].tag);
    case Leave(t) => ExitKeeps(w, t);
    case Adopt(b) => PublishKeeps(w, b);
    case Claim(m, tag) => ClaimKeeps(w, m, tag);
    case Release(m) => ReleaseKeeps(w, m);
    case Unload => 
  }

  // ---------------------------------------------------------------- runs

  ghost predicate Run(ws: seq<World>) {
    && ws != [] && ws[0] == START
    && forall i: nat {:trigger StepAt(ws, i)} :: i + 1 < |ws| ==> StepAt(ws, i)
  }

  ghost predicate StepAt(ws: seq<World>, i: nat)
    requires i + 1 < |ws|
  {
    exists a: Action :: Enabled(ws[i], a) && ws[i + 1] == Do(ws[i], a)
  }

  /** Whatever the interleaving, every state reached is good. */
  lemma {:induction false} AlwaysGood(ws: seq<World>, i: nat)
    requires Run(ws) && i < |ws|
    ensures Good(ws[i])
  {
    if i > 0 {
      AlwaysGood(ws, i - 1);
      assert StepAt(ws, i - 1);
      var a :| Enabled(ws[i - 1], a) && ws[i] == Do(ws[i - 1], a);
      StepKeeps(ws[i - 1], a);
    } else {
      StartGood();
    }
  }

  /** Every change of the list is a new generation. */
  lemma StepCounts(w: World, a: Action)
    requires Enabled(w, a)
    ensures Do(w, a).kernel.generation >= w.kernel.generation
    ensures Do(w, a).kernel.generation == w.kernel.generation ==> Do(w, a).kernel.banks == w.kernel.banks
  {
  }

  lemma {:induction false} SameGenerationSameList(ws: seq<World>, i: nat, j: nat)
    requires Run(ws) && i <= j < |ws|
    ensures ws[i].kernel.generation <= ws[j].kernel.generation
    ensures ws[i].kernel.generation == ws[j].kernel.generation ==> ws[i].kernel.banks == ws[j].kernel.banks
    decreases j - i
  {
    if i < j {
      assert StepAt(ws, i);
      var a :| Enabled(ws[i], a) && ws[i + 1] == Do(ws[i], a);
      StepCounts(ws[i], a);
      SameGenerationSameList(ws, i + 1, j);
    }
  }

  /** Once unloading has been allowed nothing is left and nothing can come back. */
  lemma {:induction false} UnloadIsFinal(ws: seq<World>, i: nat, j: nat)
    requires Run(ws) && i <= j < |ws| && ws[i].kernel.stopping
    ensures ws[j] == ws[i] && ws[j].kernel.banks == [] && ws[j].inside == map[] && ws[j].held == map[]
    decreases j - i
  {
    AlwaysGood(ws, i);
    assert ws[i].held == map[] by {
      assert forall m: nat :: m in ws[i].held ==> ws[i].held[m] in ws[i].kernel.banks;
    }
    if i < j {
      assert StepAt(ws, i);
      var a :| Enabled(ws[i], a) && ws[i + 1] == Do(ws[i], a);
      assert ws[i + 1] == ws[i];
      UnloadIsFinal(ws, i + 1, j);
    }
  }

  /** A bank that a mount holds stays in the list, unchanged, until that mount lets go. */
  lemma {:induction false} HeldStays(ws: seq<World>, i: nat, j: nat, m: nat)
    requires Run(ws) && i <= j < |ws|
    requires forall k: nat :: i <= k <= j ==> m in ws[k].held
    ensures ws[j].held[m] == ws[i].held[m] && ws[i].held[m] in ws[j].kernel.banks
    decreases j - i
  {
    AlwaysGood(ws, j);
    if i < j {
      assert StepAt(ws, i);
      var a :| Enabled(ws[i], a) && ws[i + 1] == Do(ws[i], a);
      assert m in ws[i].held && m in ws[i + 1].held;
      if a == Release(m) {
        AlwaysGood(ws, i);
        ReleaseKeeps(ws[i], m);
      }
      assert ws[i + 1].held[m] == ws[i].held[m];
      HeldStays(ws, i + 1, j, m);
    }
  }

  // ---------------------------------------------------------------- listings

  function Rows(banks: seq<Bank>): seq<Row> {
    seq(|banks|, i requires 0 <= i < |banks| => RowOf(banks[i]))
  }

  /** The states successive calls of one client meet, whatever happens between them. */
  ghost predicate History(seen: nat -> State) {
    forall i: nat, j: nat {:trigger seen(i), seen(j)} :: i <= j ==>
      seen(i).generation <= seen(j).generation &&
      (seen(i).generation == seen(j).generation ==> seen(i).banks == seen(j).banks)
  }

  /** `femtoctl list`: ask row by row, start again when the list has changed, give up after eight changes.
      A listing that completes is the whole bank list of one moment. */
  method ListBanks(seen: nat -> State) returns (ok: bool, rows: seq<Row>)
    requires History(seen)
    ensures ok ==> exists k: nat :: rows == Rows(seen(k).banks)
    ensures (forall k: nat :: seen(k) == seen(0)) ==> (ok <==> !seen(0).stopping)
  {
    rows := [];
    var index, generation, attempts, call := 0, 0, 0, 0;
    ghost var first: nat := 0;
    while true
      invariant |rows| == index && attempts < 8
      invariant index > 0 ==> first < call && generation == seen(first).generation && index <= |seen(first).banks|
      invariant index > 0 ==> rows == Rows(seen(first).banks)[..index]
      invariant attempts > 0 || index > 0 ==> (forall k: nat :: seen(k) == seen(0)) ==>
                  attempts == 0 && !seen(0).stopping
      decreases 8 - attempts, if index == 0 then 1 else 0, if index == 0 then 0 else |seen(first).banks| - index
    {
      var s := seen(call);
      var error := if s.stopping then Stopped else Listed(s, index, generation);
      if error == Fine {
        if index == 0 {
          first := call;
        } else {
          assert seen(first).generation == seen(call).generation;
        }
        rows, generation, index := rows + [RowOf(s.banks[index])], s.generation, index + 1;
      } else if error == NotFound {
        if index == 0 {
          assert rows == Rows(s.banks);
        } else {
          assert seen(first).generation == seen(call).generation;
          assert rows == Rows(s.banks);
        }
        return true, rows;
      } else if error == Again && attempts + 1 < 8 {
        attempts, index, rows := attempts + 1, 0, [];
        assert seen(first).generation != seen(call).generation;
        assert seen(first) != seen(call);
      } else {
        return false, rows;
      }
      call := call + 1;
    }
  }

  /** The moments of a run at which a client's calls happen. */
  ghost predicate Moments(ws: seq<World>, at: nat -> nat) {
    && (forall k: nat {:trigger at(k)} :: at(k) < |ws|)
    && (forall j: nat, k: nat {:trigger at(j), at(k)} :: j <= k ==> at(j) <= at(k))
  }

  lemma RunIsHistory(ws: seq<World>, at: nat -> nat, seen: nat -> State)
    requires Run(ws) && Moments(ws, at) && forall k: nat {:trigger seen(k)} :: seen(k) == ws[at(k)].kernel
    ensures History(seen)
  {
    forall j: nat, k: nat | j <= k
      ensures seen(j).generation <= seen(k).generation
      ensures seen(j).generation == seen(k).generation ==> seen(j).banks == seen(k).banks
    {
      SameGenerationSameList(ws, at(j), at(k));
    }
  }

  /** `femtoctl list` while anything else goes on: the calls are any moments of any run, one after the other.
      A listing that completes is the whole bank list of one of those moments. */
  method ListDuringRun(ws: seq<World>, at: nat -> nat) returns (ok: bool, rows: seq<Row>)
    requires Run(ws) && Moments(ws, at)
    ensures ok ==> exists k: nat :: rows == Rows(ws[at(k)].kernel.banks) && ShowsAll(rows, ws[at(k)].kernel.banks)
    ensures (forall k: nat :: ws[at(k)].kernel == ws[at(0)].kernel) ==> (ok <==> !ws[at(0)].kernel.stopping)
  {
    var seen: nat -> State := (k: nat) => if at(k) < |ws| then ws[at(k)].kernel else START.kernel;
    RunIsHistory(ws, at, seen);
    ok, rows := ListBanks(seen);
    if ok {
      ghost var k: nat :| rows == Rows(seen(k).banks);
      RowsShow(ws[at(k)].kernel.banks);
      assert rows == Rows(ws[at(k)].kernel.banks);
    }
  }

  /** Row by row, what each bank is. */
  ghost predicate ShowsAll(rows: seq<Row>, banks: seq<Bank>) {
    && |rows| == |banks|
    && forall i: nat {:trigger rows[i]} {:trigger banks[i]} :: i < |banks| ==>
         && rows[i].tag == banks[i].tag && rows[i].source == banks[i].source && rows[i].uuid == banks[i].uuid
         && rows[i].size == banks[i].size && rows[i].extent == banks[i].extent
         && rows[i].preload == banks[i].preload && rows[i].claimed == banks[i].claimed
  }

  lemma RowsShow(banks: seq<Bank>)
    ensures ShowsAll(Rows(banks), banks)
  {
  }
}
