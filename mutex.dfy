/**
 * The owner word of a mutex: the address of the owning thread with the
 * mutex's flags in its low three bits. Thread structures are at least
 * 8-byte aligned, so those bits of an owner address are always free.
 * The word is an intptr_t; its bits are modelled as a bv64.
 */
module Mutex {

  type Word = bv64

  const MTX_SLEEP: Word := 0
  const MTX_SPIN: Word := 1
  const MTX_NODEBUG: Word := 2
  const MTX_CONTESTED: Word := 4
  const MTX_FLAGMASK: Word := 7

  /** A mutex: its owner word. The lock-class mapping used by lockdep is not modelled. */
  datatype Mtx = Mtx(owner: Word)

  /** A word holding nothing but flag bits. */
  predicate OnlyFlags(w: Word)
  {
    w & !MTX_FLAGMASK == 0
  }

  /** An owner address whose low three bits are free for the flags. */
  predicate Aligned(a: Word)
  {
    a & MTX_FLAGMASK == 0
  }

  /** The layout of the flags: distinct single bits, all inside the mask; sleep is "no spin bit". */
  lemma FlagLayout()
    ensures MTX_SPIN & MTX_NODEBUG == 0 && MTX_SPIN & MTX_CONTESTED == 0
    ensures MTX_NODEBUG & MTX_CONTESTED == 0
    ensures MTX_SPIN | MTX_NODEBUG | MTX_CONTESTED == MTX_FLAGMASK
    ensures MTX_SLEEP & MTX_SPIN == 0 && OnlyFlags(MTX_SLEEP)
  {
  }

  /** MTX_INITIALIZER(name, type): the owner word is just the type flags. */
  function MtxInitializer(kind: Word): (m: Mtx)
    ensures OnlyFlags(kind) ==> MtxOwner(m) == 0 && MtxFlags(m) == kind
    ensures MtxFlags(m) == kind & MTX_FLAGMASK
  {
    Mtx(kind)
  }

  /** mtx_owner: the owner word with the flag bits masked off. */
  function MtxOwner(m: Mtx): (t: Word)
    ensures Aligned(t)
    ensures t | (m.owner & MTX_FLAGMASK) == m.owner
  {
    m.owner & !MTX_FLAGMASK
  }

  /** The flag bits of the owner word. */
  function MtxFlags(m: Mtx): (f: Word)
    ensures OnlyFlags(f)
    ensures f | MtxOwner(m) == m.owner
  {
    m.owner & MTX_FLAGMASK
  }

  /** An aligned owner and flags packed into one word. */
  function Pack(owner: Word, flags: Word): (w: Word)
    requires Aligned(owner) && OnlyFlags(flags)
    ensures MtxOwner(Mtx(w)) == owner && MtxFlags(Mtx(w)) == flags
  {
    owner | flags
  }

  /** Every owner word is the packing of its owner and its flags. */
  lemma UnpackPack(m: Mtx)
    ensures Pack(MtxOwner(m), MtxFlags(m)) == m.owner
  {
  }

  /** Masking an owner value again changes nothing. */
  lemma OwnerIdempotent(m: Mtx)
    ensures MtxOwner(Mtx(MtxOwner(m))) == MtxOwner(m)
  {
  }

  /** Changing the flags never changes the owner. */
  lemma FlagsDoNotDisturbOwner(m: Mtx, f: Word)
    requires OnlyFlags(f)
    ensures MtxOwner(Mtx(m.owner | f)) == MtxOwner(m)
    ensures MtxOwner(Mtx(m.owner & !f)) == MtxOwner(m)
  {
  }
}
