/** What a process sees of physical memory through its page tables: an array of bytes, on which
    stores act as on any other array. */
module ProcessMemory {
  import opened Arithmetic
  import opened Bits
  import opened Descriptors
  import opened FrameAllocator
  import opened PageTables
  import opened Mmap

  /** Physical memory byte by byte; what was never written is zero. The words of page tables are
      kept in `Words`: no store of a process meets them, see `StoresMissTables`. */
  type Memory = map<nat, byte>

  function ByteAt(m: Memory, p: nat): byte { if p in m then m[p] else 0 }

  /** Where a mapped address lies in physical memory. */
  function Physical(tr: Translate, a: nat): nat
    requires tr(a).Mapped?
  {
    0x1000 * tr(a).frame + a % 0x1000
  }

  /** What a load gives; the zero stands for a fault. */
  function Fetch(m: Memory, tr: Translate, a: nat): byte { if tr(a).Mapped? then ByteAt(m, Physical(tr, a)) else 0 }

  datatype ByteStore = ByteStore(to: nat, value: byte)

  /** A store; to an address that is not mapped it faults. */
  function StoreThrough(m: Memory, tr: Translate, w: ByteStore): Memory {
    if tr(w.to).Mapped? then m[Physical(tr, w.to) := w.value] else m
  }

  function StoreAllThrough(m: Memory, tr: Translate, ws: seq<ByteStore>): Memory {
    if ws == [] then m else StoreThrough(StoreAllThrough(m, tr, ws[..|ws| - 1]), tr, ws[|ws| - 1])
  }

  /** The addresses below `top` as one array. */
  function View(m: Memory, tr: Translate, top: nat): (s: seq<byte>)
    ensures |s| == top && forall a: nat | a < top :: s[a] == Fetch(m, tr, a)
  {
    seq(top, (a: nat) => Fetch(m, tr, a))
  }

  predicate StoresInside(ws: seq<ByteStore>, top: nat) { forall w | w in ws :: w.to < top }

  /** The same stores on an array. */
  function StoreAll(s: seq<byte>, ws: seq<ByteStore>): (r: seq<byte>)
    requires StoresInside(ws, |s|)
    ensures |r| == |s|
  {
    if ws == [] then s else StoreAll(s, ws[..|ws| - 1])[ws[|ws| - 1].to := ws[|ws| - 1].value]
  }

  ghost predicate AllMapped(tr: Translate, ws: seq<ByteStore>) { forall w | w in ws :: tr(w.to).Mapped? }

  /** Different addresses lie in different places. */
  lemma PlacesDiffer(tr: Translate, a: nat, b: nat)
    requires NoSharing(tr) && a < 0x1_0000_0000_0000 && b < 0x1_0000_0000_0000 && tr(a).Mapped? && tr(b).Mapped?
    ensures Physical(tr, a) == Physical(tr, b) ==> a == b
  {
    if Physical(tr, a) == Physical(tr, b) {
      DivUnique(Physical(tr, a), 0x1000, tr(a).frame, a % 0x1000);
      DivUnique(Physical(tr, b), 0x1000, tr(b).frame, b % 0x1000);
      assert Both(a, b);
      assert PageOf(a) == a / 0x1000 && PageOf(b) == b / 0x1000;
    }
  }

  lemma StoreRefines(m: Memory, tr: Translate, top: nat, w: ByteStore)
    requires NoSharing(tr) && w.to < top <= 0x1_0000_0000_0000 && tr(w.to).Mapped?
    ensures View(StoreThrough(m, tr, w), tr, top) == View(m, tr, top)[w.to := w.value]
  {
    hide NoSharing, Physical;
    var u := StoreThrough(m, tr, w);
    forall a: nat | a < top ensures Fetch(u, tr, a) == if a == w.to then w.value else Fetch(m, tr, a) {
      if tr(a).Mapped? {
        PlacesDiffer(tr, a, w.to);
      }
    }
  }

  /** Through page tables that share no frame, any stores to mapped addresses are the same stores
      on the array that the process sees. */
  lemma {:induction false} StoresRefine(m: Memory, tr: Translate, top: nat, ws: seq<ByteStore>)
    requires NoSharing(tr) && top <= 0x1_0000_0000_0000 && StoresInside(ws, top) && AllMapped(tr, ws)
    ensures View(StoreAllThrough(m, tr, ws), tr, top) == StoreAll(View(m, tr, top), ws)
  {
    if ws != [] {
      hide NoSharing, StoreThrough, View;
      var rest, last := ws[..|ws| - 1], ws[|ws| - 1];
      assert last in ws && forall w | w in rest :: w in ws;
      StoresRefine(m, tr, top, rest);
      StoreRefines(StoreAllThrough(m, tr, rest), tr, top, last);
    }
  }

  /** They change no byte of a table or of a free frame. */
  lemma {:induction false} StoresMissTables(m: Memory, tr: Translate, f: Frames, t: Tables, n: nat,
                                            ws: seq<ByteStore>, p: nat)
    requires Backed(tr, f, t, n) && AllMapped(tr, ws) && (IsTable(t, n, p / 0x1000) || FreePage(f, p / 0x1000))
    ensures ByteAt(StoreAllThrough(m, tr, ws), p) == ByteAt(m, p)
  {
    if ws != [] {
      var rest, last := ws[..|ws| - 1], ws[|ws| - 1];
      assert last in ws && forall w | w in rest :: w in ws;
      StoresMissTables(m, tr, f, t, n, rest, p);
      DivUnique(Physical(tr, last.to), 0x1000, tr(last.to).frame, last.to % 0x1000);
    }
  }

  // ----- copying

  /** The loop of `copy_to_user`: one byte after the other. */
  function Copy(to: nat, bytes: seq<byte>): (ws: seq<ByteStore>)
    ensures |ws| == |bytes| && forall j | 0 <= j < |bytes| :: ws[j] == ByteStore(to + j, bytes[j])
  {
    seq(|bytes|, (j: nat) requires j < |bytes| => ByteStore(to + j, bytes[j]))
  }

  lemma {:induction false} CopyStores(s: seq<byte>, to: nat, bytes: seq<byte>)
    requires to + |bytes| <= |s|
    ensures StoresInside(Copy(to, bytes), |s|) && StoreAll(s, Copy(to, bytes)) == s[..to] + bytes + s[to + |bytes|..]
  {
    if bytes == [] {
      assert s == s[..to] + [] + s[to..];
    } else {
      var n := |bytes| - 1;
      CopyStores(s, to, bytes[..n]);
      assert Copy(to, bytes)[..n] == Copy(to, bytes[..n]);
    }
  }
}
