/** How a contract's linear memory is kept in the state tree: one entry per page, zero pages left out. */
module ContractMemory {
  import opened Bytes
  import opened SortedSeq

  const PAGE := 65536

  /** The entries under one contract: the page count, and the pages that were ever written. */
  datatype Stored = Stored(numPages: Option<nat>, pages: map<nat, seq<byte>>)

  /** A page that is absent reads as empty. */
  function PageOf(pages: map<nat, seq<byte>>, k: nat): seq<byte> {
    if k in pages then pages[k] else []
  }

  /** The byte at position i of the memory that the pages stand for: a short page ends in zeros. */
  function ByteAt(pages: map<nat, seq<byte>>, i: nat): byte {
    var page := PageOf(pages, i / PAGE);
    if i % PAGE < |page| then page[i % PAGE] else 0
  }

  function Memory(pages: map<nat, seq<byte>>, n: nat): seq<byte> {
    seq(n * PAGE, i requires 0 <= i => ByteAt(pages, i))
  }

  function Load(s: Stored): Option<seq<byte>> {
    if s.numPages.None? then None else Some(Memory(s.pages, s.numPages.value))
  }

  function Window(mem: seq<byte>, k: nat): seq<byte>
    requires (k + 1) * PAGE <= |mem|
  {
    mem[k * PAGE..(k + 1) * PAGE]
  }

  predicate AllZero(page: seq<byte>) {
    forall i :: 0 <= i < |page| ==> page[i] == 0
  }

  /** Page k is written only when what is stored for it does not stand for it already. */
  function SavePage(pages: map<nat, seq<byte>>, mem: seq<byte>, k: nat): map<nat, seq<byte>>
    requires (k + 1) * PAGE <= |mem|
  {
    var was, page := PageOf(pages, k), Window(mem, k);
    if (if was == [] then AllZero(page) else was == page) then pages else pages[k := page]
  }

  function SavePages(pages: map<nat, seq<byte>>, mem: seq<byte>, n: nat): map<nat, seq<byte>>
    requires n * PAGE <= |mem|
  {
    if n == 0 then pages else SavePage(SavePages(pages, mem, n - 1), mem, n - 1)
  }

  function Save(s: Stored, mem: seq<byte>): Stored {
    Stored(Some(|mem| / PAGE), SavePages(s.pages, mem, |mem| / PAGE))
  }

  /** Saving one page makes the store stand for that window and touches no other page. */
  lemma SavePageHolds(pages: map<nat, seq<byte>>, mem: seq<byte>, k: nat)
    requires (k + 1) * PAGE <= |mem|
    ensures forall i :: k * PAGE <= i < (k + 1) * PAGE ==> ByteAt(SavePage(pages, mem, k), i) == mem[i]
    ensures forall q :: q != k ==> PageOf(SavePage(pages, mem, k), q) == PageOf(pages, q)
  {
    var after := SavePage(pages, mem, k);
    var page := Window(mem, k);
    forall i | k * PAGE <= i < (k + 1) * PAGE
      ensures ByteAt(after, i) == mem[i]
    {
      assert i / PAGE == k && i % PAGE == i - k * PAGE;
      assert page[i % PAGE] == mem[i];
    }
  }

  /** Whatever was stored before, the first n pages now stand for the first n windows of the memory. */
  lemma {:induction false} SavePagesHold(pages: map<nat, seq<byte>>, mem: seq<byte>, n: nat, i: nat)
    requires n * PAGE <= |mem|
    ensures i < n * PAGE ==> ByteAt(SavePages(pages, mem, n), i) == mem[i]
    ensures n * PAGE <= i ==> PageOf(SavePages(pages, mem, n), i / PAGE) == PageOf(pages, i / PAGE)
  {
    if n > 0 {
      var before := SavePages(pages, mem, n - 1);
      SavePagesHold(pages, mem, n - 1, i);
      SavePageHolds(before, mem, n - 1);
    }
  }

  /** A saved memory loads back cut down to whole pages, over any entries left by earlier saves. */
  lemma SaveThenLoad(s: Stored, mem: seq<byte>)
    ensures Load(Save(s, mem)) == Some(mem[..|mem| / PAGE * PAGE])
    ensures Load(Save(s, mem)) == Some(mem) <==> |mem| % PAGE == 0
  {
    var n := |mem| / PAGE;
    var got := Memory(SavePages(s.pages, mem, n), n);
    forall i | 0 <= i < n * PAGE
      ensures got[i] == mem[i]
    {
      SavePagesHold(s.pages, mem, n, i);
    }
    assert got == mem[..n * PAGE];
    assert |mem| % PAGE == 0 ==> mem[..n * PAGE] == mem;
  }

  /** Saving what is already there changes no page. */
  lemma {:induction false} SaveAgain(pages: map<nat, seq<byte>>, mem: seq<byte>, n: nat, m: nat)
    requires n <= m && m * PAGE <= |mem|
    ensures SavePages(SavePages(pages, mem, m), mem, n) == SavePages(pages, mem, m)
  {
    if n > 0 {
      SaveAgain(pages, mem, n - 1, m);
      SavedPageStays(pages, mem, n - 1, m);
    }
  }

  lemma {:induction false} SavedPageStays(pages: map<nat, seq<byte>>, mem: seq<byte>, k: nat, m: nat)
    requires k < m && m * PAGE <= |mem|
    ensures SavePage(SavePages(pages, mem, m), mem, k) == SavePages(pages, mem, m)
    decreases m
  {
    var before := SavePages(pages, mem, m - 1);
    SavePageHolds(before, mem, m - 1);
    if k < m - 1 {
      SavedPageStays(pages, mem, k, m - 1);
    } else {
      assert |Window(mem, k)| == PAGE;
    }
  }

  /** The part of the state tree that holds one contract's memory. */
  class PageStore {
    var numPages: Option<nat>
    var pages: map<nat, seq<byte>>

    function View(): Stored
      reads this
    {
      Stored(numPages, pages)
    }

    method SaveSnapshot(mem: seq<byte>)
      modifies this
      ensures View() == Save(old(View()), mem)
    {
      var n := |mem| / PAGE;
      numPages := Some(n);
      var k := 0;
      while k < n
        invariant k <= n && numPages == Some(n)
        invariant pages == SavePages(old(pages), mem, k)
      {
        var was := PageOf(pages, k);
        var page := mem[k * PAGE..(k + 1) * PAGE];
        var identical;
        if |was| == 0 {
          identical := AllZero(page);
        } else {
          identical := was == page;
        }
        if !identical {
          pages := pages[k := page];
        }
        k := k + 1;
      }
    }

    method LoadSnapshot() returns (mem: Option<seq<byte>>)
      ensures mem == Load(View())
    {
      if numPages.None? {
        return None;
      }
      var n := numPages.value;
      var buf := new byte[n * PAGE](_ => 0);
      var k := 0;
      while k < n
        invariant k <= n
        invariant forall i :: 0 <= i < k * PAGE ==> buf[i] == ByteAt(pages, i)
        invariant forall i :: k * PAGE <= i < n * PAGE ==> buf[i] == 0
      {
        var page := PageOf(pages, k);
        CopyPage(buf, k, page);
        forall i | k * PAGE <= i < (k + 1) * PAGE
          ensures buf[i] == ByteAt(pages, i)
        {
          assert i / PAGE == k && i % PAGE == i - k * PAGE;
        }
        k := k + 1;
      }
      assert buf[..] == Memory(pages, n);
      mem := Some(buf[..]);
    }
  }

  /** Copies as much of the page as fits into window k, leaving the rest of the buffer alone. */
  method CopyPage(buf: array<byte>, k: nat, page: seq<byte>)
    requires (k + 1) * PAGE <= buf.Length
    modifies buf
    ensures forall i :: 0 <= i < buf.Length && !(k * PAGE <= i < (k + 1) * PAGE) ==> buf[i] == old(buf[i])
    ensures forall i :: k * PAGE <= i < (k + 1) * PAGE ==>
      buf[i] == if i - k * PAGE < |page| then page[i - k * PAGE] else old(buf[i])
  {
    var j := 0;
    while j < PAGE && j < |page|
      invariant 0 <= j <= PAGE && j <= |page|
      invariant forall i :: 0 <= i < buf.Length && !(k * PAGE <= i < k * PAGE + j) ==> buf[i] == old(buf[i])
      invariant forall i :: k * PAGE <= i < k * PAGE + j ==> buf[i] == page[i - k * PAGE]
    {
      buf[k * PAGE + j] := page[j];
      j := j + 1;
    }
  }
}
