/** malloc and free as code that updates free lists and arena counts in place; each call is proved to
    take the step that Malloc describes. */
module Allocator {
  import opened Basics
  import opened Bitmap
  import Malloc

  class BlockAllocator {
    const base: nat
    var used: seq<bool>
    var arenas: map<nat, Malloc.Arena>
    var free: seq<seq<nat>>
    ghost var others: set<nat>
    ghost var owner: seq<Option<nat>>
    ghost var live: map<nat, nat>

    ghost function View(): Malloc.Heap
      reads this
    {
      Malloc.Heap(base, used, others, arenas, owner, free, live, false)
    }

    ghost predicate Valid()
      reads this
    {
      Malloc.Inv(View(), None)
    }

    method GetPages(cnt: nat) returns (r: Option<nat>)
      modifies `used
      ensures (View(), r) == Malloc.GetPages(old(View()), cnt)
    {
      r := FirstRun(used, 0, cnt, false);
      if r.Some? {
        used := SetRange(used, r.value, cnt, true);
      }
    }

    method MallocBig(size: nat) returns (b: nat)
      modifies this
      ensures (View(), b) == Malloc.MallocBig(old(View()), size)
    {
      var cnt := (size + Malloc.HEADER + Malloc.PGSIZE - 1) / Malloc.PGSIZE;
      var p := GetPages(cnt);
      if p == None {
        return 0;
      }
      b := (base + p.value) * Malloc.PGSIZE + Malloc.HEADER;
      ghost var h := View();
      arenas := arenas[p.value := Malloc.Arena(None, cnt)];
      owner := Malloc.AddArena(h, p.value, Malloc.Arena(None, cnt)).owner;
      live := live[b := size];
    }

    method NewArena(k: nat) returns (ok: bool)
      requires k < Malloc.DESC_CNT == |free|
      modifies this
      ensures |free| == Malloc.DESC_CNT
      ensures if ok then Malloc.NewArena(old(View()), k) == Some(View())
              else Malloc.NewArena(old(View()), k) == None && View() == old(View())
    {
      var p := GetPages(1);
      if p == None {
        return false;
      }
      var page := base + p.value;
      ghost var h := View();
      arenas := arenas[p.value := Malloc.Arena(Some(k), Malloc.PerArena(k))];
      owner := Malloc.AddArena(h, p.value, arenas[p.value]).owner;
      ghost var list, blocks := free[k], Malloc.BlockList(page, k);
      for i := 0 to Malloc.PerArena(k)
        invariant |free| == Malloc.DESC_CNT && free[k] == list + blocks[..i] && free == h.free[k := free[k]]
        modifies `free
      {
        free := free[k := free[k] + [Malloc.BlockAt(page, k, i)]];
      }
      assert blocks[..Malloc.PerArena(k)] == blocks;
      ok := true;
    }

    method TakeBlock(k: nat, size: nat) returns (b: nat)
      requires k < Malloc.DESC_CNT == |free| && free[k] != [] && Malloc.Rightful(View(), free[k][0])
      requires arenas[Malloc.PageOf(View(), free[k][0])].freeCnt > 0
      modifies this
      ensures (View(), b) == Malloc.TakeBlock(old(View()), k, size)
    {
      b := free[k][0];
      free := free[k := free[k][1..]];
      var p: nat := b / Malloc.PGSIZE - base;
      arenas := arenas[p := arenas[p].(freeCnt := arenas[p].freeCnt - 1)];
      live := live[b := size];
    }

    method Allocate(size: nat) returns (b: nat)
      requires Valid()
      modifies this
      ensures Valid() && (View(), b) == Malloc.Malloc(old(View()), size)
    {
      Malloc.MallocKeeps(View(), size);
      if size == 0 {
        return 0;
      }
      var k := 0;
      while k < Malloc.DESC_CNT && Malloc.BlockSize(k) < size
        invariant k <= Malloc.DESC_CNT && Malloc.DescFor(size, 0) == Malloc.DescFor(size, k)
      {
        k := k + 1;
      }
      if k == Malloc.DESC_CNT {
        b := MallocBig(size);
        return;
      }
      ghost var full: Option<nat> := None;
      if free[k] == [] {
        if Malloc.NewArena(View(), k).Some? { Malloc.NewArenaKeeps(View(), k); }
        full := Malloc.GetPages(View(), 1).1;
        var ok := NewArena(k);
        if !ok {
          return 0;
        }
      }
      Malloc.FrontIsRightful(View(), k, full);
      b := TakeBlock(k, size);
    }

    method UnlinkBlocks(p: nat, k: nat)
      requires k < Malloc.DESC_CNT == |free|
      modifies `free
      ensures free == old(free)[k := Malloc.RemoveEach(old(free)[k], Malloc.BlockList(base + p, k))]
    {
      ghost var list, blocks := free[k], Malloc.BlockList(base + p, k);
      for i := 0 to Malloc.PerArena(k)
        invariant |free| == Malloc.DESC_CNT && free == old(free)[k := free[k]]
        invariant Malloc.RemoveEach(list, blocks) == Malloc.RemoveEach(free[k], blocks[i..])
      {
        assert blocks[i..][1..] == blocks[i + 1..];
        free := free[k := Without(free[k], Malloc.BlockAt(base + p, k, i))];
      }
    }

    method ReturnArena(p: nat, k: nat)
      requires k < Malloc.DESC_CNT == |free| && p in arenas && arenas[p].desc == Some(k)
      requires arenas[p].freeCnt == Malloc.PerArena(k) && p < |used| && used[p]
      requires forall b :: b in Malloc.BlockList(base + p, k) ==> b in free[k]
      modifies this
      ensures View() == Malloc.ReturnArena(old(View()), p, k)
    {
      ghost var h, blocks := View(), Malloc.BlockList(base + p, k);
      assert forall i :: 0 <= i < |blocks| ==> blocks[i] in blocks;
      UnlinkBlocks(p, k);
      owner := Malloc.DropArena(h, p).owner;
      arenas := arenas - {p};
      used := SetRange(used, p, 1, false);
    }

    method Release(b: nat)
      requires Valid() && (b == 0 || b in live)
      modifies this
      ensures Valid() && View() == Malloc.Free(old(View()), b)
    {
      ghost var h := View();
      Malloc.FreeKeeps(h, b);
      if b == 0 {
        return;
      }
      assert Malloc.LiveOk(h, b);
      var p: nat := b / Malloc.PGSIZE - base;
      Malloc.ArenaPages(h, p);
      var a := arenas[p];
      if a.desc.Some? {
        var k := a.desc.value;
        Malloc.PushKeeps(h, b);
        free := free[k := [b] + free[k]];
        arenas := arenas[p := a.(freeCnt := a.freeCnt + 1)];
        live := live - {b};
        assert View() == Malloc.PushBlock(h, k, p, b);
        if arenas[p].freeCnt >= Malloc.PerArena(k) {
          assert Malloc.ArenaOk(View(), p, Some(p));
          Malloc.AllFree(View(), p, k);
          ReturnArena(p, k);
        }
      } else {
        owner := Malloc.DropArena(h, p).owner;
        arenas := arenas - {p};
        live := live - {b};
        used := SetRange(used, p, a.freeCnt, false);
      }
    }
  }
}
