/** `impl::Impl` (impl/include/impl/impl.hpp): the table that maps a
    symbol to one of 100 pre-allocated order books, the dispatch of each
    reader message to its book, and the loop over the reader's ticks. */
module Engine {
  import opened Common
  import opened WindowCommon
  import opened BookState
  import opened OrderBooks
  import BookWindow

  const MAX_ORDER_BOOKS: nat := 100
  const SYMBOL_LEN: nat := 16

  /** One `char` of a symbol, as its byte value. */
  type Byte = b: int | 0 <= b < 256

  // ------------------------------------------------------ C strings

  /** `static_cast<size_t>(c)` for a `char`, which is signed on x86-64:
      a byte from 128 up sign-extends. */
  function CharValue(c: Byte): (v: nat)
    ensures v < TWO_64
  {
    if c < 128 then c else TWO_64 - 256 + c
  }

  /** `strnlen(s, n)`: the number of characters before the first NUL,
      looking at no more than `n`. */
  function StrnLen(s: seq<Byte>, n: nat): (r: nat)
    ensures r <= n && r <= |s|
    ensures forall i :: 0 <= i < r ==> s[i] != 0
    ensures r < n && r < |s| ==> s[r] == 0
    decreases n
  {
    if n == 0 || s == [] || s[0] == 0 then 0 else 1 + StrnLen(s[1..], n - 1)
  }

  /** `strncmp(a, b, n) == 0`: the strings agree up to and including the
      first NUL, comparing no more than `n` characters. */
  predicate StrnEq(a: seq<Byte>, b: seq<Byte>, n: nat)
    requires |a| >= n && |b| >= n
    decreases n
  {
    n == 0 || (a[0] == b[0] && (a[0] == 0 || StrnEq(a[1..], b[1..], n - 1)))
  }

  /** `strncmp` compares the characters of `a` before its first NUL, and
      then the NUL itself when there is room for it. */
  lemma {:induction false} StrnEqIff(a: seq<Byte>, b: seq<Byte>, n: nat)
    requires |a| >= n && |b| >= n
    ensures StrnEq(a, b, n) <==>
      var k := StrnLen(a, n); a[..k] == b[..k] && (k < n ==> b[k] == 0)
    decreases n
  {
    if n > 0 && a[0] != 0 {
      StrnEqIff(a[1..], b[1..], n - 1);
      var k := StrnLen(a, n);
      assert k == 1 + StrnLen(a[1..], n - 1);
      assert a[..k] == [a[0]] + a[1..][..k - 1];
      assert b[..k] == [b[0]] + b[1..][..k - 1];
      if a[..k] == b[..k] {
        assert a[0] == a[..k][0] == b[..k][0] == b[0];
        assert a[1..][..k - 1] == a[..k][1..] == b[..k][1..] == b[1..][..k - 1];
      }
    }
  }

  /** `strncpy(dst, s, n)` into a zeroed 16-character buffer: the
      characters of `s` before its first NUL, at most `n`, then NULs. */
  function Copied(s: seq<Byte>, n: nat): (t: seq<Byte>)
    requires n <= SYMBOL_LEN
    ensures |t| == SYMBOL_LEN
    ensures forall i :: 0 <= i < SYMBOL_LEN ==> t[i] == if i < StrnLen(s, n) then s[i] else 0
  {
    seq(SYMBOL_LEN, i requires 0 <= i < SYMBOL_LEN => if i < StrnLen(s, n) then s[i] else 0)
  }

  /** The symbol a mapping entry keeps, as written: `strncpy` of 15
      characters and a NUL forced into the last place. */
  function StoredAsWritten(s: seq<Byte>): (t: seq<Byte>)
    ensures |t| == SYMBOL_LEN && t[SYMBOL_LEN - 1] == 0
  {
    Copied(s, SYMBOL_LEN - 1)
  }

  /** The symbol a mapping entry keeps once the whole 16-character field
      is copied. */
  function Stored(s: seq<Byte>): (t: seq<Byte>)
    ensures |t| == SYMBOL_LEN
  {
    Copied(s, SYMBOL_LEN)
  }

  /** `strnlen` is pinned down by where the first NUL is. */
  lemma {:induction false} StrnLenIs(s: seq<Byte>, n: nat, r: nat)
    requires r <= n && r <= |s| && forall i :: 0 <= i < r ==> s[i] != 0
    requires r < n && r < |s| ==> s[r] == 0
    ensures StrnLen(s, n) == r
    decreases n
  {
    if r > 0 {
      StrnLenIs(s[1..], n - 1, r - 1);
    }
  }

  /** Looking at one more character extends the length only when no NUL
      came first and that character is not one. */
  lemma StrnLenStep(s: seq<Byte>, n: nat)
    requires n < |s|
    ensures StrnLen(s, n + 1) == if StrnLen(s, n) == n && s[n] != 0 then n + 1 else StrnLen(s, n)
  {
    var k := StrnLen(s, n);
    if k == n && s[n] != 0 {
      StrnLenIs(s, n + 1, n + 1);
    } else {
      StrnLenIs(s, n + 1, k);
    }
  }

  /** A copied symbol has the characters the copy took, and its own
      length is the number it took. */
  lemma CopiedLen(s: seq<Byte>, n: nat)
    requires n <= SYMBOL_LEN && |s| == SYMBOL_LEN
    ensures StrnLen(Copied(s, n), SYMBOL_LEN) == StrnLen(s, n)
    ensures Copied(s, n)[..StrnLen(s, n)] == s[..StrnLen(s, n)]
  {
    StrnLenIs(Copied(s, n), SYMBOL_LEN, StrnLen(s, n));
  }

  /** The whole-field copy always compares equal to its source. */
  lemma StoredMatches(s: seq<Byte>)
    requires |s| == SYMBOL_LEN
    ensures StrnEq(Stored(s), s, SYMBOL_LEN)
  {
    CopiedLen(s, SYMBOL_LEN);
    StrnEqIff(Stored(s), s, SYMBOL_LEN);
  }

  /** As written, the kept symbol compares equal to its source exactly when
      the source is shorter than 16 characters: a symbol filling the
      whole field never matches its own entry. */
  lemma StoredAsWrittenMatches(s: seq<Byte>)
    requires |s| == SYMBOL_LEN
    ensures StrnEq(StoredAsWritten(s), s, SYMBOL_LEN) <==> StrnLen(s, SYMBOL_LEN) < SYMBOL_LEN
  {
    var k := StrnLen(s, SYMBOL_LEN - 1);
    CopiedLen(s, SYMBOL_LEN - 1);
    StrnEqIff(StoredAsWritten(s), s, SYMBOL_LEN);
    StrnLenStep(s, SYMBOL_LEN - 1);
  }

  /** No NUL-terminated entry compares equal to a symbol filling the whole
      field. */
  lemma TerminatedNeverMatchesFull(t: seq<Byte>, s: seq<Byte>)
    requires |t| == SYMBOL_LEN && |s| == SYMBOL_LEN && t[SYMBOL_LEN - 1] == 0
    requires StrnLen(s, SYMBOL_LEN) == SYMBOL_LEN
    ensures !StrnEq(t, s, SYMBOL_LEN)
  {
    StrnEqIff(t, s, SYMBOL_LEN);
  }

  // ----------------------------------------------------------- hash

  /** The running value of `hashSymbol` after the characters `k`, in
      `size_t` arithmetic. */
  function Horner(k: seq<Byte>): (h: nat)
    ensures h < TWO_64
  {
    if k == [] then 0 else HashStep(Horner(k[..|k| - 1]), k[|k| - 1])
  }

  /** One turn of `hashSymbol`'s loop: `hash * 31 + c` in `size_t`. */
  function HashStep(h: nat, c: Byte): nat
  {
    U64(h * 31 + CharValue(c))
  }

  function Pow31(e: nat): (p: nat)
    ensures p >= 1
  {
    if e == 0 then 1 else 31 * Pow31(e - 1)
  }

  /** The polynomial Σ c_i·31^(n-1-i), unreduced. */
  function PolySum(k: seq<Byte>): nat
  {
    if k == [] then 0 else CharValue(k[0]) * Pow31(|k| - 1) + PolySum(k[1..])
  }

  /** `hashSymbol`'s value: the polynomial over the characters before the
      first NUL, at most 16. */
  function Hash(s: seq<Byte>): nat
  {
    Horner(s[..StrnLen(s, SYMBOL_LEN)])
  }

  lemma {:induction false} PolySumSnoc(k: seq<Byte>, c: Byte)
    ensures PolySum(k + [c]) == PolySum(k) * 31 + CharValue(c)
    decreases |k|
  {
    if k == [] {
      assert [c][1..] == [];
    } else {
      var t := k[1..];
      assert (k + [c])[1..] == t + [c];
      PolySumSnoc(t, c);
      var a, e := CharValue(k[0]), Pow31(|k| - 1);
      calc {
        PolySum(k + [c]);
        a * Pow31(|k|) + PolySum(t + [c]);
        a * (31 * e) + PolySum(t) * 31 + CharValue(c);
        { assert a * (31 * e) == (a * e) * 31; }
        (a * e + PolySum(t)) * 31 + CharValue(c);
      }
    }
  }

  lemma ModTimes31(x: int, c: int)
    ensures (x % TWO_64 * 31 + c) % TWO_64 == (x * 31 + c) % TWO_64
  {
    var q := x / TWO_64;
    assert x == q * TWO_64 + x % TWO_64;
    assert x * 31 + c == (x % TWO_64 * 31 + c) + (q * 31) * TWO_64;
    ModMultiple(x % TWO_64 * 31 + c, q * 31, TWO_64);
  }

  /** The hash is the polynomial in 31 over the characters, modulo 2^64. */
  lemma {:induction false} HornerIsSum(k: seq<Byte>)
    ensures Horner(k) == PolySum(k) % TWO_64
    decreases |k|
  {
    if k != [] {
      var init, c := k[..|k| - 1], k[|k| - 1];
      HornerIsSum(init);
      assert init + [c] == k;
      PolySumSnoc(init, c);
      ModTimes31(PolySum(init), CharValue(c));
      calc {
        Horner(k);
        HashStep(Horner(init), c);
        (PolySum(init) % TWO_64 * 31 + CharValue(c)) % TWO_64;
        (PolySum(init) * 31 + CharValue(c)) % TWO_64;
        PolySum(k) % TWO_64;
      }
    }
  }

  /** `hashSymbol`: fold `hash * 31 + c` over the characters up to the
      first NUL or the 16th. (The source tests the character before the
      index, reading one byte past the field when no NUL comes first; that
      byte cannot change the result.) */
  method HashSymbol(symbol: seq<Byte>) returns (h: nat)
    requires |symbol| == SYMBOL_LEN
    ensures h == Hash(symbol) && h == PolySum(symbol[..StrnLen(symbol, SYMBOL_LEN)]) % TWO_64
  {
    ghost var len := StrnLen(symbol, SYMBOL_LEN);
    h := 0;
    var i := 0;
    while i < SYMBOL_LEN && symbol[i] != 0
      invariant 0 <= i <= SYMBOL_LEN && forall j :: 0 <= j < i ==> symbol[j] != 0
      invariant h == Horner(symbol[..i])
    {
      HornerPrefix(symbol, i);
      h := HashStep(h, symbol[i]);
      i := i + 1;
    }
    StrnLenIs(symbol, SYMBOL_LEN, i);
    assert h == Hash(symbol);
    HornerIsSum(symbol[..len]);
  }

  lemma HornerPrefix(k: seq<Byte>, i: nat)
    requires i < |k|
    ensures Horner(k[..i + 1]) == HashStep(Horner(k[..i]), k[i])
  {
    assert k[..i + 1][..i] == k[..i];
  }

  // --------------------------------------------------- symbol table

  /** One `SymbolMapping`: the full hash, the kept symbol, and whether the
      book of that index is assigned. */
  datatype Entry = Entry(hash: nat, symbol: seq<Byte>, used: bool)

  /** A value-initialised mapping: hash 0, all NULs, unused. */
  const UNUSED: Entry := Entry(0, seq(SYMBOL_LEN, _ => 0), false)

  /** `symbol_mapping_` together with `num_used_order_books_`. */
  datatype Table = Table(entries: seq<Entry>, numUsed: nat)

  const EMPTY_TABLE: Table := Table(seq(MAX_ORDER_BOOKS, _ => UNUSED), 0)

  /** What a lookup leaves behind: the table, and the index of the book it
      hands out (`None` for a null pointer). */
  datatype Lookup = Lookup(table: Table, book: Option<nat>)

  /** 100 entries, each with a 16-character symbol field. */
  predicate Shaped(t: Table)
  {
    |t.entries| == MAX_ORDER_BOOKS && forall i :: 0 <= i < |t.entries| ==> |t.entries[i].symbol| == SYMBOL_LEN
  }

  /** The number of entries marked used. */
  function UsedCount(es: seq<Entry>): (n: nat)
    ensures n <= |es|
  {
    if es == [] then 0 else UsedCount(es[..|es| - 1]) + (if es[|es| - 1].used then 1 else 0)
  }

  /** The table invariant: `num_used_order_books_` counts the used entries
      (so it never exceeds 100). */
  ghost predicate TableValid(t: Table)
  {
    Shaped(t) && t.numUsed == UsedCount(t.entries)
  }

  /** Every kept symbol ends in a NUL, as the as-written copy leaves it. */
  ghost predicate Terminated(t: Table)
    requires Shaped(t)
  {
    forall i :: 0 <= i < MAX_ORDER_BOOKS ==> t.entries[i].symbol[SYMBOL_LEN - 1] == 0
  }

  lemma {:induction false} NoneUsedCount(es: seq<Entry>)
    requires forall j :: 0 <= j < |es| ==> !es[j].used
    ensures UsedCount(es) == 0
  {
    if es != [] {
      NoneUsedCount(es[..|es| - 1]);
    }
  }

  /** A table whose entries are all used has counted every one of them. */
  lemma {:induction false} AllUsedCount(es: seq<Entry>)
    requires forall j :: 0 <= j < |es| ==> es[j].used
    ensures UsedCount(es) == |es|
  {
    if es != [] {
      AllUsedCount(es[..|es| - 1]);
    }
  }

  /** Claiming an unused entry raises the count by exactly one. */
  lemma {:induction false} UsedCountClaim(es: seq<Entry>, k: nat, e: Entry)
    requires k < |es| && !es[k].used && e.used
    ensures UsedCount(es[k := e]) == UsedCount(es) + 1
    decreases |es|
  {
    var n := |es| - 1;
    if k == n {
      assert es[k := e][..n] == es[..n];
    } else {
      assert es[k := e][..n] == es[..n][k := e];
      UsedCountClaim(es[..n], k, e);
    }
  }

  /** The lowest unused index from `i` on. */
  function FirstFree(es: seq<Entry>, i: nat): (r: Option<nat>)
    ensures r.Some? ==> i <= r.value < |es| && !es[r.value].used
    ensures r.Some? ==> forall j :: i <= j < r.value ==> es[j].used
    ensures r.None? ==> forall j :: i <= j < |es| ==> es[j].used
    decreases |es| - i
  {
    if i >= |es| then None else if !es[i].used then Some(i) else FirstFree(es, i + 1)
  }

  /** An entry that a lookup of `s` (hash `h`) accepts: used, same hash,
      and `strncmp` over 16 characters finds the symbols equal. */
  predicate Matches(e: Entry, s: seq<Byte>, h: nat)
    requires |e.symbol| == SYMBOL_LEN && |s| == SYMBOL_LEN
  {
    e.used && e.hash == h && StrnEq(e.symbol, s, SYMBOL_LEN)
  }

  /** The scan of `findOrderBookForSymbol`: the lowest index from `i` on
      whose entry matches. */
  function FindMatch(es: seq<Entry>, s: seq<Byte>, h: nat, i: nat): (r: Option<nat>)
    requires |s| == SYMBOL_LEN && forall j :: 0 <= j < |es| ==> |es[j].symbol| == SYMBOL_LEN
    ensures r.Some? ==> i <= r.value < |es| && Matches(es[r.value], s, h)
    ensures r.Some? ==> forall j :: i <= j < r.value ==> !Matches(es[j], s, h)
    ensures r.None? ==> forall j :: i <= j < |es| ==> !Matches(es[j], s, h)
    decreases |es| - i
  {
    if i >= |es| then None else if Matches(es[i], s, h) then Some(i) else FindMatch(es, s, h, i + 1)
  }

  /** Entry `k` takes the symbol: its hash, the kept copy, marked used,
      and the counter goes up. */
  function Claim(t: Table, k: nat, h: nat, kept: seq<Byte>): Table
    requires k < |t.entries|
  {
    Table(t.entries[k := Entry(h, kept, true)], t.numUsed + 1)
  }

  /** `assignOrderBookToSymbol`, keeping `kept` as the symbol: null when
      100 books are in use; otherwise the preferred index if its entry is
      unused, else the lowest unused index. (Every `order_books_[i]` is
      non-null once the engine is constructed.) */
  function AssignWith(t: Table, h: nat, pref: nat, kept: seq<Byte>): (r: Lookup)
    requires Shaped(t) && pref < MAX_ORDER_BOOKS && |kept| == SYMBOL_LEN
    ensures Shaped(r.table) && (r.book.Some? ==> r.book.value < MAX_ORDER_BOOKS)
  {
    if t.numUsed >= MAX_ORDER_BOOKS then Lookup(t, None)
    else if !t.entries[pref].used then Lookup(Claim(t, pref, h, kept), Some(pref))
    else match FirstFree(t.entries, 0)
      case None => Lookup(t, None)
      case Some(k) => Lookup(Claim(t, k, h, kept), Some(k))
  }

  /** Assignment keeps the counter exact: it succeeds exactly when fewer
      than 100 books are used, takes an unused entry (the preferred one if
      it is free, else the lowest free one), raises the count by one and
      touches no other entry; a failed assignment changes nothing. */
  lemma AssignKeeps(t: Table, h: nat, pref: nat, kept: seq<Byte>)
    requires TableValid(t) && pref < MAX_ORDER_BOOKS && |kept| == SYMBOL_LEN
    ensures var r := AssignWith(t, h, pref, kept);
      && TableValid(r.table)
      && (r.book.Some? <==> t.numUsed < MAX_ORDER_BOOKS)
      && (r.book.None? ==> r.table == t)
      && (r.book.Some? ==>
            var k := r.book.value;
            && !t.entries[k].used
            && r.table.entries == t.entries[k := Entry(h, kept, true)]
            && r.table.numUsed == t.numUsed + 1
            && (!t.entries[pref].used ==> k == pref)
            && (t.entries[pref].used ==> forall j :: 0 <= j < k ==> t.entries[j].used))
  {
    if t.numUsed < MAX_ORDER_BOOKS && t.entries[pref].used && FirstFree(t.entries, 0).None? {
      AllUsedCount(t.entries);
    }
    var r := AssignWith(t, h, pref, kept);
    if r.book.Some? {
      UsedCountClaim(t.entries, r.book.value, Entry(h, kept, true));
    }
  }

  /** `getOrderBook` as written. When the preferred entry `hash % 100`
      holds the same hash, the symbol is compared there and, failing
      that, searched for (never assigned); any other preferred entry
      sends the symbol to assignment, with the 15-character copy. */
  function LookupSymbol(t: Table, s: seq<Byte>): (r: Lookup)
    requires Shaped(t) && |s| == SYMBOL_LEN
    ensures Shaped(r.table) && (r.book.Some? ==> r.book.value < MAX_ORDER_BOOKS)
  {
    LookupHashed(t, s, Hash(s))
  }

  /** The body of `getOrderBook` once the hash `h` is computed. */
  function LookupHashed(t: Table, s: seq<Byte>, h: nat): (r: Lookup)
    requires Shaped(t) && |s| == SYMBOL_LEN
    ensures Shaped(r.table) && (r.book.Some? ==> r.book.value < MAX_ORDER_BOOKS)
  {
    var i := h % MAX_ORDER_BOOKS;
    if t.entries[i].used && t.entries[i].hash == h then
      if StrnEq(t.entries[i].symbol, s, SYMBOL_LEN) then Lookup(t, Some(i))
      else Lookup(t, FindMatch(t.entries, s, h, 0))
    else AssignWith(t, h, i, StoredAsWritten(s))
  }

  /** A lookup keeps the table invariant; it either leaves the table as it
      was or assigns exactly one more book, which it then hands out; the
      book it hands out is always a used entry; and once 100 books are in
      use the table never changes again. */
  lemma LookupKeeps(t: Table, s: seq<Byte>)
    requires TableValid(t) && Terminated(t) && |s| == SYMBOL_LEN
    ensures var r := LookupSymbol(t, s);
      && TableValid(r.table) && Terminated(r.table)
      && r.table.numUsed <= MAX_ORDER_BOOKS
      && (r.table == t || (r.table.numUsed == t.numUsed + 1 && r.book.Some?))
      && (r.book.Some? ==> r.table.entries[r.book.value].used)
      && (t.numUsed == MAX_ORDER_BOOKS ==> r.table == t)
  {
    var h := Hash(s);
    var i := h % MAX_ORDER_BOOKS;
    if !(t.entries[i].used && t.entries[i].hash == h) {
      AssignKeeps(t, h, i, StoredAsWritten(s));
    }
  }

  /** A symbol shorter than 16 characters that a lookup finds or places in
      its preferred entry is handed the same book by the next lookup, and
      that lookup changes nothing. */
  lemma PreferredFoundAgain(t: Table, s: seq<Byte>)
    requires TableValid(t) && |s| == SYMBOL_LEN && StrnLen(s, SYMBOL_LEN) < SYMBOL_LEN
    requires LookupSymbol(t, s).book == Some(Hash(s) % MAX_ORDER_BOOKS)
    ensures var r := LookupSymbol(t, s); LookupSymbol(r.table, s) == Lookup(r.table, r.book)
  {
    var h := Hash(s);
    var i := h % MAX_ORDER_BOOKS;
    if !(t.entries[i].used && t.entries[i].hash == h) {
      AssignKeeps(t, h, i, StoredAsWritten(s));
      StoredAsWrittenMatches(s);
    }
  }

  /** A symbol whose hash equals the preferred entry's but whose string
      differs is only searched for: the table is left unchanged, and the
      book handed out, if any, is one whose entry matches the symbol. */
  lemma HashCollisionNeverAssigns(t: Table, s: seq<Byte>, h: nat)
    requires Shaped(t) && |s| == SYMBOL_LEN && h == Hash(s)
    requires t.entries[h % MAX_ORDER_BOOKS].used && t.entries[h % MAX_ORDER_BOOKS].hash == h
    requires !StrnEq(t.entries[h % MAX_ORDER_BOOKS].symbol, s, SYMBOL_LEN)
    ensures LookupSymbol(t, s).table == t
    ensures LookupSymbol(t, s).book.Some? ==> Matches(t.entries[LookupSymbol(t, s).book.value], s, h)
    ensures LookupSymbol(t, s).book.None? ==> forall j :: 0 <= j < MAX_ORDER_BOOKS ==> !Matches(t.entries[j], s, h)
  {
    assert LookupSymbol(t, s) == Lookup(t, FindMatch(t.entries, s, h, 0));
  }

  /** As written: while the preferred entry holds a different hash, every
      lookup of the symbol takes a fresh, previously unused book (or gets
      null), never the book an earlier lookup handed it. */
  lemma ProbedSymbolReassigned(t: Table, s: seq<Byte>)
    requires TableValid(t) && |s| == SYMBOL_LEN
    requires var i := Hash(s) % MAX_ORDER_BOOKS; t.entries[i].used && t.entries[i].hash != Hash(s)
    ensures var r := LookupSymbol(t, s);
      r.book.Some? ==> !t.entries[r.book.value].used && r.table.numUsed == t.numUsed + 1
  {
    var h := Hash(s);
    AssignKeeps(t, h, h % MAX_ORDER_BOOKS, StoredAsWritten(s));
  }

  /** As written: a symbol that fills all 16 characters is never found
      again: a lookup of it that gets a book at all takes a fresh one. */
  lemma FullSymbolNeverFound(t: Table, s: seq<Byte>)
    requires TableValid(t) && Terminated(t) && |s| == SYMBOL_LEN && StrnLen(s, SYMBOL_LEN) == SYMBOL_LEN
    ensures var r := LookupSymbol(t, s);
      r.book.Some? ==> !t.entries[r.book.value].used && r.table.numUsed == t.numUsed + 1
  {
    var h := Hash(s);
    var i := h % MAX_ORDER_BOOKS;
    if t.entries[i].used && t.entries[i].hash == h {
      TerminatedNeverMatchesFull(t.entries[i].symbol, s);
      var m := FindMatch(t.entries, s, h, 0);
      if m.Some? {
        TerminatedNeverMatchesFull(t.entries[m.value].symbol, s);
      }
    } else {
      AssignKeeps(t, h, i, StoredAsWritten(s));
    }
  }

  /** As written: a symbol filling all 16 characters that a lookup places
      in its preferred entry is lost there. The next lookup meets its own
      hash in that entry, compares unequal, finds no match anywhere else
      and gets null, leaving the table as it is, so every lookup after it
      gets null as well. */
  lemma FullSymbolDropped(t: Table, s: seq<Byte>)
    requires TableValid(t) && Terminated(t) && |s| == SYMBOL_LEN && StrnLen(s, SYMBOL_LEN) == SYMBOL_LEN
    requires LookupSymbol(t, s).book == Some(Hash(s) % MAX_ORDER_BOOKS)
    ensures var r := LookupSymbol(t, s); LookupSymbol(r.table, s) == Lookup(r.table, None)
  {
    var h := Hash(s);
    var i := h % MAX_ORDER_BOOKS;
    FullSymbolNeverFound(t, s);
    LookupKeeps(t, s);
    var r := LookupSymbol(t, s);
    AssignKeeps(t, h, i, StoredAsWritten(s));
    assert r.table.entries[i].used && r.table.entries[i].hash == h;
    TerminatedNeverMatchesFull(r.table.entries[i].symbol, s);
    var m := FindMatch(r.table.entries, s, h, 0);
    if m.Some? {
      TerminatedNeverMatchesFull(r.table.entries[m.value].symbol, s);
    }
  }

  /** The fresh engine's table is valid and every kept symbol in it ends
      in a NUL. */
  lemma EmptyTableValid()
    ensures TableValid(EMPTY_TABLE) && Terminated(EMPTY_TABLE)
  {
    NoneUsedCount(EMPTY_TABLE.entries);
  }

  /** As written, on a fresh engine: a symbol filling all 16 characters
      gets the book at its preferred entry once; its second lookup gets
      null and changes nothing. */
  lemma FullSymbolSecondLookupNull(s: seq<Byte>)
    requires |s| == SYMBOL_LEN && StrnLen(s, SYMBOL_LEN) == SYMBOL_LEN
    ensures var r1 := LookupSymbol(EMPTY_TABLE, s);
      r1.book == Some(Hash(s) % MAX_ORDER_BOOKS) && LookupSymbol(r1.table, s) == Lookup(r1.table, None)
  {
    EmptyTableValid();
    assert EMPTY_TABLE.entries[Hash(s) % MAX_ORDER_BOOKS] == UNUSED;
    FullSymbolDropped(EMPTY_TABLE, s);
  }

  /** The symbols "0" (hash 48) and "A!" (hash 65 * 31 + 33 = 2048):
      different hashes, the same preferred entry 48. */
  const SYMBOL_0: seq<Byte> := [48] + seq(SYMBOL_LEN - 1, _ => 0)
  const SYMBOL_A: seq<Byte> := [65, 33] + seq(SYMBOL_LEN - 2, _ => 0)

  lemma HashesOfExamples()
    ensures Hash(SYMBOL_0) == 48 && Hash(SYMBOL_A) == 2048
  {
    StrnLenIs(SYMBOL_0, SYMBOL_LEN, 1);
    assert SYMBOL_0[..1] == [48];
    assert Horner([48]) == 48 by { assert [48][..0] == []; }
    StrnLenIs(SYMBOL_A, SYMBOL_LEN, 2);
    assert SYMBOL_A[..2] == [65, 33];
    assert Horner([65]) == 65 by { assert [65][..0] == []; }
    assert Horner([65, 33]) == 2048 by { assert [65, 33][..1] == [65]; }
  }

  /** As written, on a fresh table: "0" takes entry 48; "A!" then finds
      entry 48 holding another hash and is given book 0; looking "A!" up
      again gives it book 1, a second, empty book. */
  lemma ProbeCounterexample()
    ensures var r1 := LookupSymbol(EMPTY_TABLE, SYMBOL_0);
      var r2 := LookupSymbol(r1.table, SYMBOL_A);
      var r3 := LookupSymbol(r2.table, SYMBOL_A);
      r1.book == Some(48) && r2.book == Some(0) && r3.book == Some(1) && r3.table.numUsed == 3
  {
    HashesOfExamples();
    var t0 := EMPTY_TABLE;
    assert t0.entries[48] == UNUSED;
    var r1 := LookupSymbol(t0, SYMBOL_0);
    assert r1 == Lookup(Claim(t0, 48, 48, StoredAsWritten(SYMBOL_0)), Some(48));
    var t1 := r1.table;
    assert t1.entries[0] == UNUSED && t1.entries[48].used && t1.entries[48].hash == 48;
    assert FirstFree(t1.entries, 0) == Some(0);
    var r2 := LookupSymbol(t1, SYMBOL_A);
    assert r2 == Lookup(Claim(t1, 0, 2048, StoredAsWritten(SYMBOL_A)), Some(0));
    var t2 := r2.table;
    assert t2.entries[0].used && t2.entries[1] == UNUSED && t2.entries[48] == t1.entries[48];
    assert FirstFree(t2.entries, 1) == Some(1);
    assert FirstFree(t2.entries, 0) == Some(1);
    var r3 := LookupSymbol(t2, SYMBOL_A);
    assert r3 == Lookup(Claim(t2, 1, 2048, StoredAsWritten(SYMBOL_A)), Some(1));
  }

  /** `getOrderBook` as evidently intended: a symbol the preferred entry
      does not hold is searched for in the whole table before it is
      assigned a book, and the whole 16-character field is kept. */
  function LookupSymbolFixed(t: Table, s: seq<Byte>): (r: Lookup)
    requires Shaped(t) && |s| == SYMBOL_LEN
    ensures Shaped(r.table) && (r.book.Some? ==> r.book.value < MAX_ORDER_BOOKS)
  {
    LookupFixedHashed(t, s, Hash(s))
  }

  function LookupFixedHashed(t: Table, s: seq<Byte>, h: nat): (r: Lookup)
    requires Shaped(t) && |s| == SYMBOL_LEN
    ensures Shaped(r.table) && (r.book.Some? ==> r.book.value < MAX_ORDER_BOOKS)
  {
    var i := h % MAX_ORDER_BOOKS;
    if Matches(t.entries[i], s, h) then Lookup(t, Some(i))
    else match FindMatch(t.entries, s, h, 0)
      case Some(j) => Lookup(t, Some(j))
      case None => AssignWith(t, h, i, Stored(s))
  }

  /** The corrected lookup keeps the table invariant, and a symbol that
      has been handed a book is handed the same book by every later
      lookup, which leaves the table as it is. */
  lemma FixedLookupStable(t: Table, s: seq<Byte>)
    requires TableValid(t) && |s| == SYMBOL_LEN
    ensures var r := LookupSymbolFixed(t, s);
      && TableValid(r.table)
      && (r.book.Some? ==> LookupSymbolFixed(r.table, s) == Lookup(r.table, r.book))
  {
    var h := Hash(s);
    var i := h % MAX_ORDER_BOOKS;
    var r := LookupFixedHashed(t, s, h);
    if !Matches(t.entries[i], s, h) && FindMatch(t.entries, s, h, 0).None? {
      AssignKeeps(t, h, i, Stored(s));
      if r.book.Some? {
        var k := r.book.value;
        var es := r.table.entries;
        StoredMatches(s);
        assert Matches(es[k], s, h);
        assert forall j :: 0 <= j < MAX_ORDER_BOOKS && j != k ==> es[j] == t.entries[j];
        if k != i {
          var m := FindMatch(es, s, h, 0);
          assert m == Some(k);
        }
      }
    }
  }

  // ------------------------------------------------------- dispatch

  /** The reader's messages, with the fields `processMessage` uses; a
      type outside 0..4 is `UnknownMsg`. */
  datatype Message =
    | OrderbookClear(symbol: seq<Byte>)
    | AddOrderMsg(symbol: seq<Byte>, orderId: nat, price: int, qty: nat, side: nat)
    | ModifyOrderMsg(symbol: seq<Byte>, orderId: nat, price: int, qty: nat, side: nat)
    | DeleteOrderMsg(symbol: seq<Byte>, orderId: nat, side: nat)
    | AddTradeMsg(symbol: seq<Byte>, orderId: nat, price: int, tradeId: nat, side: nat, qty: nat, tradeTime: nat)
    | UnknownMsg(msgType: nat)

  /** The field widths of the packed wire structs. */
  predicate WellFormed(m: Message)
  {
    match m
      case OrderbookClear(s) => |s| == SYMBOL_LEN
      case AddOrderMsg(s, id, price, qty, side) =>
        |s| == SYMBOL_LEN && id < TWO_64 && IsInt32(price) && qty < TWO_32 && side < 256
      case ModifyOrderMsg(s, id, price, qty, side) =>
        |s| == SYMBOL_LEN && id < TWO_64 && IsInt32(price) && qty < TWO_32 && side < 256
      case DeleteOrderMsg(s, id, side) => |s| == SYMBOL_LEN && id < TWO_64 && side < 256
      case AddTradeMsg(s, id, price, tradeId, side, qty, tradeTime) =>
        |s| == SYMBOL_LEN && id < TWO_64 && IsInt32(price) && tradeId < TWO_64 && side < 256
        && qty < TWO_64 && tradeTime < TWO_64
      case UnknownMsg(ty) => ty < 65536 && ty > 4
  }

  /** The side byte: 0 is BUY, anything else SELL. */
  function SideOf(b: nat): Side
  {
    if b == 0 then Buy else Sell
  }

  /** What the engine holds, as values: the table, each book's state and
      the live trades of each book's window. */
  datatype EngineState = EngineState(table: Table, books: seq<Book>, windows: seq<seq<Trade>>)

  predicate StateShaped(st: EngineState)
  {
    && Shaped(st.table) && |st.books| == MAX_ORDER_BOOKS && |st.windows| == MAX_ORDER_BOOKS
    && forall i :: 0 <= i < MAX_ORDER_BOOKS ==> |st.windows[i]| <= MAX_TRADES
  }

  /** What a message does to the book it is routed to: CLEAR empties the
      book and starts a new window, the order messages call the book's
      operation with the decoded side, and a trade on a known order id is
      also recorded in the window before expired trades are evicted. */
  function ApplyToBook(b: Book, w: seq<Trade>, m: Message): (r: (Book, seq<Trade>))
    requires |w| <= MAX_TRADES
    ensures |r.1| <= MAX_TRADES
  {
    match m
      case OrderbookClear(_) => (EmptyBook, [])
      case AddOrderMsg(_, id, price, qty, side) => (BookState.AddOrder(b, id, price, qty, SideOf(side)), w)
      case ModifyOrderMsg(_, id, price, qty, side) => (BookState.ModifyOrder(b, id, price, qty, SideOf(side)), w)
      case DeleteOrderMsg(_, id, side) => (BookState.DeleteOrder(b, id, SideOf(side)), w)
      case AddTradeMsg(_, id, price, _, side, qty, tradeTime) =>
        (BookState.ProcessTrade(b, id, price, qty, SideOf(side)),
         if Found(b, id) then BookWindow.Evicted(Appended(w, Trade(tradeTime, price, qty, Amount(price, qty))), tradeTime) else w)
      case UnknownMsg(_) => (b, w)
  }

  /** `processMessage`: an unknown type is ignored; any other message
      looks its symbol up (which may assign a book) and, unless the lookup
      gives null, is applied to that book alone. */
  function Step(st: EngineState, m: Message): (r: EngineState)
    requires StateShaped(st) && WellFormed(m)
    ensures StateShaped(r)
  {
    if m.UnknownMsg? then st
    else
      var l := LookupSymbol(st.table, m.symbol);
      match l.book
        case None => st.(table := l.table)
        case Some(k) =>
          var r := ApplyToBook(st.books[k], st.windows[k], m);
          EngineState(l.table, st.books[k := r.0], st.windows[k := r.1])
  }

  /** A step whose lookup hands out book `k`, leaving table `t`: the
      table becomes `t` and only book `k` and its window take the message. */
  lemma StepFound(st: EngineState, m: Message, t: Table, k: nat)
    requires StateShaped(st) && WellFormed(m) && !m.UnknownMsg?
    requires LookupSymbol(st.table, m.symbol) == Lookup(t, Some(k))
    ensures k < MAX_ORDER_BOOKS
    ensures var r := ApplyToBook(st.books[k], st.windows[k], m);
      Step(st, m) == EngineState(t, st.books[k := r.0], st.windows[k := r.1])
  {
  }

  /** A step whose lookup hands out null, leaving table `t`: only the
      table changes. */
  lemma StepDropped(st: EngineState, m: Message, t: Table)
    requires StateShaped(st) && WellFormed(m) && !m.UnknownMsg?
    requires LookupSymbol(st.table, m.symbol) == Lookup(t, None)
    ensures Step(st, m) == st.(table := t)
  {
  }

  predicate AllWellFormed(ms: seq<Message>)
  {
    forall i :: 0 <= i < |ms| ==> WellFormed(ms[i])
  }

  /** The messages processed one after the other. */
  function Steps(st: EngineState, ms: seq<Message>): (r: EngineState)
    requires StateShaped(st) && AllWellFormed(ms)
    ensures StateShaped(r)
  {
    if ms == [] then st else Step(Steps(st, ms[..|ms| - 1]), ms[|ms| - 1])
  }

  /** The engine's routing never breaks the table invariant, never uses
      more than 100 books, and never takes a book back: the count of
      assigned books only grows. */
  lemma {:induction false} StepsKeepTable(st: EngineState, ms: seq<Message>)
    requires StateShaped(st) && TableValid(st.table) && Terminated(st.table) && AllWellFormed(ms)
    ensures var r := Steps(st, ms);
      TableValid(r.table) && Terminated(r.table)
      && st.table.numUsed <= r.table.numUsed <= MAX_ORDER_BOOKS
    decreases |ms|
  {
    if ms != [] {
      var init := ms[..|ms| - 1];
      StepsKeepTable(st, init);
      var m := ms[|ms| - 1];
      if !m.UnknownMsg? {
        LookupKeeps(Steps(st, init).table, m.symbol);
      }
    }
  }

  // ---------------------------------------------------------- reader

  /** `framework::ReaderStatus`. */
  datatype ReaderStatus = Ok | Pending | Finished

  /** One result of `try_get_tick`: status, the message (`None` for a null
      data pointer) and the size. */
  datatype Tick = Tick(status: ReaderStatus, data: Option<Message>, size: nat)

  predicate TicksWellFormed(ts: seq<Tick>)
  {
    forall i :: 0 <= i < |ts| && ts[i].data.Some? ==> WellFormed(ts[i].data.value)
  }

  /** A tick `run` hands to `processMessage`: status OK, non-null data and a
      positive size. */
  predicate Dispatched(t: Tick)
  {
    t.status == Ok && t.data.Some? && t.size > 0
  }

  /** The messages of the dispatched ticks, in order. */
  function Delivered(ts: seq<Tick>): (r: seq<Message>)
    requires TicksWellFormed(ts)
    ensures AllWellFormed(r) && |r| <= |ts|
  {
    if ts == [] then []
    else
      var t := ts[|ts| - 1];
      Delivered(ts[..|ts| - 1]) + (if Dispatched(t) then [t.data.value] else [])
  }

  /** The index of the first FINISHED tick, or the length when none is. */
  function FirstFinished(ts: seq<Tick>): (r: nat)
    ensures r <= |ts| && (r < |ts| ==> ts[r].status == Finished)
    ensures forall j :: 0 <= j < r ==> ts[j].status != Finished
  {
    if ts == [] || ts[0].status == Finished then 0 else 1 + FirstFinished(ts[1..])
  }

  // ---------------------------------------------------------- engine

  /** The engine: 100 pre-allocated books, the symbol mapping and its
      counter. `Repr` holds the books and their windows. */
  class Impl {
    const books: array<OrderBook>
    const mapping: array<Entry>
    var numUsed: nat
    ghost var Repr: set<object>

    /** The table invariant, and the books' frame: every book, window and
        trade ring is in `Repr`, the mapping is not, no two books share any
        of them, and each window keeps its own invariant. */
    ghost predicate Valid()
      reads this, books, mapping, Repr
    {
      && TableOk()
      && mapping !in Repr
      && BooksValid()
    }

    ghost predicate TableOk()
      reads this`numUsed, mapping
    {
      TableValid(TableNow()) && Terminated(TableNow())
    }

    ghost predicate BooksValid()
      reads this`Repr, books, Repr
    {
      && books.Length == MAX_ORDER_BOOKS
      && (forall i :: 0 <= i < MAX_ORDER_BOOKS ==> books[i] in Repr)
      && (forall i :: 0 <= i < MAX_ORDER_BOOKS ==> books[i].window in Repr && books[i].window.trades in Repr)
      && (forall i :: 0 <= i < MAX_ORDER_BOOKS ==> books[i].window.Valid())
      && (forall i, j :: 0 <= i < j < MAX_ORDER_BOOKS ==>
            books[i] != books[j] && books[i].window != books[j].window && books[i].window.trades != books[j].window.trades)
    }

    function TableNow(): Table
      reads this`numUsed, mapping
    {
      Table(mapping[..], numUsed)
    }

    ghost function BookAt(i: nat): Book
      reads this`Repr, books, Repr
      requires BooksValid() && i < MAX_ORDER_BOOKS
    {
      books[i].State()
    }

    ghost function WindowAt(i: nat): (w: seq<Trade>)
      reads this`Repr, books, Repr
      requires BooksValid() && i < MAX_ORDER_BOOKS
      ensures |w| <= MAX_TRADES
    {
      books[i].window.Live()
    }

    /** The engine as a value. */
    ghost function Abstract(): (st: EngineState)
      reads this, books, mapping, Repr
      requires Valid()
      ensures StateShaped(st)
    {
      EngineState(TableNow(), BooksNow(), WindowsNow())
    }

    /** The books' states, by index. */
    ghost function BooksNow(): (bs: seq<Book>)
      reads this`Repr, books, Repr
      requires BooksValid()
      ensures |bs| == MAX_ORDER_BOOKS
    {
      var bs, R := books, Repr;
      seq(MAX_ORDER_BOOKS, i requires 0 <= i < bs.Length && bs[i] in R reads bs, R => bs[i].State())
    }

    /** The books' live trades, by index. */
    ghost function WindowsNow(): (ws: seq<seq<Trade>>)
      reads this`Repr, books, Repr
      requires BooksValid()
      ensures |ws| == MAX_ORDER_BOOKS
    {
      var bs, R := books, Repr;
      seq(MAX_ORDER_BOOKS, i requires 0 <= i < bs.Length && bs[i] in R && bs[i].window in R && bs[i].window.trades in R
                                && bs[i].window.Valid() reads bs, R => bs[i].window.Live())
    }

    /** The constructor's pre-allocation: 100 default-constructed books and
        an all-unused mapping. */
    constructor ()
      ensures Valid() && fresh(Repr)
      ensures Abstract() == EngineState(EMPTY_TABLE, seq(MAX_ORDER_BOOKS, _ => EmptyBook), seq(MAX_ORDER_BOOKS, _ => []))
    {
      mapping := new Entry[MAX_ORDER_BOOKS](_ => UNUSED);
      var made;
      ghost var repr;
      made, repr := AllocateBooks();
      books := new OrderBook[MAX_ORDER_BOOKS](i requires 0 <= i < MAX_ORDER_BOOKS => made[i]);
      numUsed := 0;
      Repr := repr;
      new;
      assert mapping[..] == EMPTY_TABLE.entries;
      assert forall i :: 0 <= i < MAX_ORDER_BOOKS ==> books[i] == made[i];
      FreshBooks(made);
    }

    /** Books freshly allocated as `made`, with an all-unused mapping, make
        a valid engine whose books and windows are all empty. */
    lemma FreshBooks(made: seq<OrderBook>)
      requires |made| == MAX_ORDER_BOOKS && books.Length == MAX_ORDER_BOOKS
      requires forall i :: 0 <= i < MAX_ORDER_BOOKS ==> books[i] == made[i]
      requires forall i :: 0 <= i < |made| ==> made[i] in Repr && made[i].window in Repr && made[i].window.trades in Repr
      requires forall i :: 0 <= i < |made| ==> Pristine(made[i])
      requires forall i, j :: 0 <= i < j < |made| ==>
        made[i] != made[j] && made[i].window != made[j].window && made[i].window.trades != made[j].window.trades
      requires mapping[..] == EMPTY_TABLE.entries && numUsed == 0 && mapping !in Repr
      ensures Valid()
      ensures Abstract() == EngineState(EMPTY_TABLE, seq(MAX_ORDER_BOOKS, _ => EmptyBook), seq(MAX_ORDER_BOOKS, _ => []))
    {
      NoneUsedCount(mapping[..]);
      assert BooksValid();
    }

    /** `findOrderBookForSymbol`: the first index whose entry is used, has
        the hash and compares equal to the symbol. */
    method FindOrderBookForSymbol(symbol: seq<Byte>, hash: nat) returns (k: Option<nat>)
      requires Shaped(TableNow()) && |symbol| == SYMBOL_LEN
      ensures k == FindMatch(mapping[..], symbol, hash, 0)
      ensures k.Some? ==> Matches(mapping[k.value], symbol, hash)
    {
      var i := 0;
      while i < MAX_ORDER_BOOKS
        invariant 0 <= i <= MAX_ORDER_BOOKS
        invariant FindMatch(mapping[..], symbol, hash, 0) == FindMatch(mapping[..], symbol, hash, i)
      {
        if mapping[i].used && mapping[i].hash == hash {
          if StrnEq(mapping[i].symbol, symbol, SYMBOL_LEN) {
            return Some(i);
          }
        }
        i := i + 1;
      }
      return None;
    }

    /** `assignOrderBookToSymbol`, which keeps the 15-character copy. */
    method AssignOrderBookToSymbol(symbol: seq<Byte>, hash: nat, preferred: nat) returns (k: Option<nat>)
      requires Valid() && |symbol| == SYMBOL_LEN && preferred < MAX_ORDER_BOOKS
      modifies mapping, this`numUsed
      ensures Valid()
      ensures Lookup(TableNow(), k) == AssignWith(old(TableNow()), hash, preferred, StoredAsWritten(symbol))
    {
      if numUsed >= MAX_ORDER_BOOKS {
        return None;
      }
      if !mapping[preferred].used {
        ClaimEntry(preferred, hash, StoredAsWritten(symbol));
        return Some(preferred);
      }
      var i := 0;
      while i < MAX_ORDER_BOOKS
        invariant 0 <= i <= MAX_ORDER_BOOKS
        invariant FirstFree(mapping[..], 0) == FirstFree(mapping[..], i)
      {
        if !mapping[i].used {
          ClaimEntry(i, hash, StoredAsWritten(symbol));
          return Some(i);
        }
        i := i + 1;
      }
      return None;
    }

    /** Entry `i`, unused, takes the hash and the kept symbol and is marked
        used; the used count goes up by one. */
    method ClaimEntry(i: nat, hash: nat, kept: seq<Byte>)
      requires Valid() && i < MAX_ORDER_BOOKS && !mapping[i].used && |kept| == SYMBOL_LEN && kept[SYMBOL_LEN - 1] == 0
      modifies mapping, this`numUsed
      ensures Valid()
      ensures TableNow() == Claim(old(TableNow()), i, hash, kept)
    {
      UsedCountClaim(mapping[..], i, Entry(hash, kept, true));
      mapping[i] := Entry(hash, kept, true);
      numUsed := numUsed + 1;
      assert mapping[..] == old(mapping[..])[i := Entry(hash, kept, true)];
    }

    /** `getOrderBook`. */
    method GetOrderBook(symbol: seq<Byte>) returns (k: Option<nat>)
      requires Valid() && |symbol| == SYMBOL_LEN
      modifies mapping, this`numUsed
      ensures Valid()
      ensures Lookup(TableNow(), k) == LookupSymbol(old(TableNow()), symbol)
    {
      var hash := HashSymbol(symbol);
      var index := hash % MAX_ORDER_BOOKS;
      if mapping[index].used && mapping[index].hash == hash {
        if StrnEq(mapping[index].symbol, symbol, SYMBOL_LEN) {
          return Some(index);
        }
        k := FindOrderBookForSymbol(symbol, hash);
        return;
      }
      k := AssignOrderBookToSymbol(symbol, hash, index);
    }

    /** The operation a message calls on book `k`. */
    method Apply(k: nat, m: Message)
      requires Valid() && k < MAX_ORDER_BOOKS && WellFormed(m)
      modifies this`Repr, Repr
      ensures Valid() && fresh(Repr - old(Repr)) && TableNow() == old(TableNow())
      ensures var r := ApplyToBook(old(BooksNow())[k], old(WindowsNow())[k], m);
        BooksNow() == old(BooksNow())[k := r.0] && WindowsNow() == old(WindowsNow())[k := r.1]
    {
      ghost var bs, ws := BooksNow(), WindowsNow();
      assert bs[k] == BookAt(k) && ws[k] == WindowAt(k);
      ghost var r := ApplyToBook(BookAt(k), WindowAt(k), m);
      ghost var table := TableNow();
      UpdateBook(k, m);
      assert TableNow() == table;
      NowAfter(bs, ws, k, r.0, r.1);
    }

    /** Book `k` takes the message; every other book and window is left
        alone. */
    method UpdateBook(k: nat, m: Message)
      requires BooksValid() && k < MAX_ORDER_BOOKS && WellFormed(m)
      modifies this`Repr, Repr
      ensures BooksValid() && fresh(Repr - old(Repr)) && numUsed == old(numUsed) && unchanged(mapping)
      ensures (BookAt(k), WindowAt(k)) == ApplyToBook(old(BookAt(k)), old(WindowAt(k)), m)
      ensures forall i :: 0 <= i < MAX_ORDER_BOOKS && i != k ==> BookAt(i) == old(BookAt(i)) && WindowAt(i) == old(WindowAt(i))
    {
      var ob := books[k];
      ghost var w := ob.window;
      CallBook(ob, m);
      if ob.window != w {
        Repr := Repr + {ob.window, ob.window.trades};
      }
      forall i | 0 <= i < MAX_ORDER_BOOKS && i != k
        ensures books[i] != ob && books[i].window != ob.window && books[i].window.trades != ob.window.trades
        ensures unchanged(books[i]) && unchanged(books[i].window) && unchanged(books[i].window.trades)
      {
        if i < k {
          assert old(books[i] != books[k] && books[i].window != books[k].window && books[i].window.trades != books[k].window.trades);
        } else {
          assert old(books[k] != books[i] && books[k].window != books[i].window && books[k].window.trades != books[i].window.trades);
        }
      }
      assert BooksValid();
    }

    /** The books and windows by index, when book `k` has become `b` with
        window `w` and every other one is as in `bs` and `ws`. */
    lemma NowAfter(bs: seq<Book>, ws: seq<seq<Trade>>, k: nat, b: Book, w: seq<Trade>)
      requires BooksValid() && |bs| == |ws| == MAX_ORDER_BOOKS && k < MAX_ORDER_BOOKS
      requires BookAt(k) == b && WindowAt(k) == w
      requires forall i :: 0 <= i < MAX_ORDER_BOOKS && i != k ==> BookAt(i) == bs[i] && WindowAt(i) == ws[i]
      ensures BooksNow() == bs[k := b] && WindowsNow() == ws[k := w]
    {
      assert BooksNow() == bs[k := b];
      assert WindowsNow() == ws[k := w];
    }

    /** `processMessage`. */
    method ProcessMessage(m: Message)
      requires Valid() && WellFormed(m)
      modifies this, mapping, Repr
      ensures Valid() && fresh(Repr - old(Repr))
      ensures Abstract() == Step(old(Abstract()), m)
    {
      if m.UnknownMsg? {
        return;
      }
      ghost var st := Abstract();
      ghost var bs, ws := BooksNow(), WindowsNow();
      var k := GetOrderBook(m.symbol);
      assert BooksNow() == bs && WindowsNow() == ws;
      ghost var t := TableNow();
      if k.Some? {
        Apply(k.value, m);
        StepFound(st, m, t, k.value);
      } else {
        StepDropped(st, m, TableNow());
      }
    }

    /** `run`: take ticks until the reader reports FINISHED, processing
        those with status OK, non-null data and a positive size. The
        reader is the sequence of its ticks; it must report FINISHED at
        some point for the loop to end. */
    method Run(ticks: seq<Tick>)
      requires Valid() && TicksWellFormed(ticks)
      requires exists i :: 0 <= i < |ticks| && ticks[i].status == Finished
      modifies this, mapping, Repr
      ensures Valid() && fresh(Repr - old(Repr))
      ensures Abstract() == Steps(old(Abstract()), Delivered(ticks[..FirstFinished(ticks)]))
    {
      ghost var last := FirstFinished(ticks);
      ghost var st0 := Abstract();
      var i := 0;
      while ticks[i].status != Finished
        invariant i <= last < |ticks|
        invariant Valid() && fresh(Repr - old(Repr))
        invariant StateShaped(st0) && TicksWellFormed(ticks[..i])
        invariant Abstract() == Steps(st0, Delivered(ticks[..i]))
        decreases last - i
      {
        DeliveredSnoc(ticks, i);
        StepsSnoc(st0, Delivered(ticks[..i]), ticks[i]);
        HandleTick(ticks[i]);
        i := i + 1;
      }
      assert i == last;
    }

    /** One pass of the `run` loop on a tick that is not FINISHED. */
    method HandleTick(t: Tick)
      requires Valid() && (t.data.Some? ==> WellFormed(t.data.value))
      modifies this, mapping, Repr
      ensures Valid() && fresh(Repr - old(Repr))
      ensures Abstract() == if Dispatched(t) then Step(old(Abstract()), t.data.value) else old(Abstract())
    {
      if t.status == Ok && t.data.Some? && t.size > 0 {
        ProcessMessage(t.data.value);
      }
    }
  }

  /** A default-constructed book: empty, with a valid empty window. */
  ghost predicate Pristine(ob: OrderBook)
    reads ob, ob.window, ob.window.trades
  {
    ob.State() == EmptyBook && ob.window.Valid() && ob.window.Live() == []
  }

  /** The allocation loop of the constructor: `new (ob) OrderBook()` for
      each of the 100 books. */
  method AllocateBooks() returns (made: seq<OrderBook>, ghost repr: set<object>)
    ensures |made| == MAX_ORDER_BOOKS && fresh(repr)
    ensures forall i :: 0 <= i < |made| ==> made[i] in repr && made[i].window in repr && made[i].window.trades in repr
    ensures forall i :: 0 <= i < |made| ==> Pristine(made[i])
    ensures forall i, j :: 0 <= i < j < |made| ==>
      made[i] != made[j] && made[i].window != made[j].window && made[i].window.trades != made[j].window.trades
  {
    made, repr := [], {};
    while |made| < MAX_ORDER_BOOKS
      invariant |made| <= MAX_ORDER_BOOKS && fresh(repr)
      invariant forall i :: 0 <= i < |made| ==> made[i] in repr && made[i].window in repr && made[i].window.trades in repr
      invariant forall i :: 0 <= i < |made| ==> Pristine(made[i])
      invariant forall i, j :: 0 <= i < j < |made| ==>
        made[i] != made[j] && made[i].window != made[j].window && made[i].window.trades != made[j].window.trades
    {
      var ob := NewBook(repr);
      made := made + [ob];
      repr := repr + {ob, ob.window, ob.window.trades};
    }
  }

  /** `new (ob) OrderBook()`: a pristine book whose objects are new, so
      none of them is among those allocated before. */
  method NewBook(ghost before: set<object>) returns (ob: OrderBook)
    ensures fresh(ob) && fresh(ob.window) && fresh(ob.window.trades) && Pristine(ob)
    ensures ob !in before && ob.window !in before && ob.window.trades !in before
  {
    ob := new OrderBook();
  }

  /** The `OrderBook` call a message makes: `clear`, `addOrder`,
      `modifyOrder`, `deleteOrder` or `processTrade` (given the trade time
      as its timestamp), with the side byte decoded. Only `clear` replaces
      the window. */
  method CallBook(ob: OrderBook, m: Message)
    requires ob.window.Valid() && WellFormed(m)
    modifies ob, ob.window, ob.window.trades
    ensures ob.window.Valid()
    ensures (ob.State(), ob.window.Live()) == ApplyToBook(old(ob.State()), old(ob.window.Live()), m)
    ensures (ob.window == old(ob.window) && ob.window.trades == old(ob.window.trades))
      || (fresh(ob.window) && fresh(ob.window.trades))
  {
    match m {
      case OrderbookClear(_) =>
        ob.Clear();
      case AddOrderMsg(_, id, price, qty, side) =>
        ob.AddOrder(id, price, qty, SideOf(side));
      case ModifyOrderMsg(_, id, price, qty, side) =>
        ob.ModifyOrder(id, price, qty, SideOf(side));
      case DeleteOrderMsg(_, id, side) =>
        ob.DeleteOrder(id, SideOf(side));
      case AddTradeMsg(_, id, price, tradeId, side, qty, tradeTime) =>
        ob.ProcessTrade(id, tradeId, price, qty, SideOf(side), tradeTime);
      case UnknownMsg(_) =>
    }
  }

  lemma DeliveredSnoc(ts: seq<Tick>, i: nat)
    requires i < |ts| && TicksWellFormed(ts)
    ensures TicksWellFormed(ts[..i]) && TicksWellFormed(ts[..i + 1])
    ensures Delivered(ts[..i + 1]) == Delivered(ts[..i]) + if Dispatched(ts[i]) then [ts[i].data.value] else []
  {
    assert ts[..i + 1][..i] == ts[..i];
  }

  lemma StepsSnoc(st: EngineState, ms: seq<Message>, t: Tick)
    requires StateShaped(st) && AllWellFormed(ms) && (t.data.Some? ==> WellFormed(t.data.value))
    ensures var ms' := ms + if Dispatched(t) then [t.data.value] else [];
      AllWellFormed(ms') &&
      Steps(st, ms') == if Dispatched(t) then Step(Steps(st, ms), t.data.value) else Steps(st, ms)
  {
    if Dispatched(t) {
      assert (ms + [t.data.value])[..|ms|] == ms;
    } else {
      assert ms + [] == ms;
    }
  }
}
