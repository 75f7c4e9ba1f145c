/** The first pass of `process_puzzles`: each puzzle record whose `Rating`
    is a digit string goes, in input order, to the list of its 100-point
    rating bin; all other records are dropped without an error. */
module Bucketing {
  import opened Text

  datatype Option<T> = None | Some(value: T)

  /** One row of the normalised CSV as `csv.DictReader` gives it: field name
      to field value. */
  type Record = map<string, string>

  const RatingField: string := "Rating"
  const BinWidth: nat := 100

  /** Python's `d.get(key, default)`. */
  function Get(p: Record, key: string, default: string): string {
    if key in p then p[key] else default
  }

  /** `puzzle.get("Rating", "").strip()`. */
  function RatingText(p: Record): string {
    Strip(Get(p, RatingField, ""))
  }

  /** `(rating // 100) * 100`: the multiple of 100 at or below `rating` and
      within 100 of it. */
  function Bin(rating: nat): (b: nat)
    ensures b % BinWidth == 0
    ensures b <= rating < b + BinWidth
  {
    (rating / BinWidth) * BinWidth
  }

  /** Only one multiple of 100 lies in `(rating - 100, rating]`, so the bin
      is determined by the bounds `Bin` promises. */
  lemma BinUnique(rating: nat, b: nat)
    requires b % BinWidth == 0 && b <= rating < b + BinWidth
    ensures b == Bin(rating)
  {
  }

  /** The bin a record goes to, or `None` when `process_puzzles` drops it:
      the stripped `Rating` must pass `isdigit()`, and the record's bin is
      then the bin of `int(...)` of that text. */
  function BinOf(p: Record): Option<nat> {
    var s := RatingText(p);
    if IsDigits(s) then Some(Bin(ParseDigits(s))) else None
  }

  /** A record is kept exactly when its stripped `Rating` is a digit string,
      and then its bin is the multiple of 100 at or below the rating, less
      than 100 below it. */
  lemma BinOfBounds(p: Record)
    ensures BinOf(p).Some? <==> IsDigits(RatingText(p))
    ensures BinOf(p).Some? ==>
              var rating := ParseDigits(RatingText(p));
              var b := BinOf(p).value;
              b % BinWidth == 0 && b <= rating < b + BinWidth
  {
  }

  /** A record without a `Rating` field, or whose `Rating` is blank, is
      dropped. */
  lemma BlankRatingDropped(p: Record)
    requires AllSpace(Get(p, RatingField, ""))
    ensures BinOf(p) == None
  {
    var v := Get(p, RatingField, "");
    assert v + [] + [] == v;
    StripPadded(v, [], []);
  }

  /** A `Rating` made of digits, with any whitespace around it, is kept, and
      the record goes to the bin of the number the digits spell. */
  lemma PaddedRatingKept(p: Record, pre: string, digits: string, post: string)
    requires AllSpace(pre) && AllSpace(post) && IsDigits(digits)
    requires RatingField in p && p[RatingField] == pre + digits + post
    ensures BinOf(p) == Some(Bin(ParseDigits(digits)))
  {
    assert !IsSpace(digits[0]) && !IsSpace(digits[|digits| - 1]) by {
      assert IsDigit(digits[0]) && IsDigit(digits[|digits| - 1]);
    }
    StripPadded(pre, digits, post);
  }

  // ---------------------------------------------------------------------
  // Grouping. The definitions and lemmas below are stated for any function
  // `bin` that sends an item to its bin or drops it; `process_puzzles` uses
  // them with `BinOf`.

  /** One step of the loop: `p` appended to the list of its bin, if kept. */
  function AddRecord<T>(g: map<nat, seq<T>>, p: T, bin: T -> Option<nat>): map<nat, seq<T>> {
    match bin(p)
    case None => g
    case Some(b) => g[b := (if b in g then g[b] else []) + [p]]
  }

  /** The `rating_groups` dictionary after the loop has consumed `ps`:
      every kept item appended, in order, to the list of its bin. */
  function Grouped<T>(ps: seq<T>, bin: T -> Option<nat>): map<nat, seq<T>> {
    if ps == [] then map[] else AddRecord(Grouped(ps[..|ps| - 1], bin), ps[|ps| - 1], bin)
  }

  /** Reference definition of one group: the items of `ps` whose bin is
      `b`, in input order. */
  function Members<T>(ps: seq<T>, bin: T -> Option<nat>, b: nat): seq<T> {
    if ps == [] then []
    else
      var p := ps[|ps| - 1];
      Members(ps[..|ps| - 1], bin, b) + (if bin(p) == Some(b) then [p] else [])
  }

  /** The kept items of `ps`, in input order. */
  function Kept<T>(ps: seq<T>, bin: T -> Option<nat>): seq<T> {
    if ps == [] then []
    else
      var p := ps[|ps| - 1];
      Kept(ps[..|ps| - 1], bin) + (if bin(p).Some? then [p] else [])
  }

  /** A bin is a key of the dictionary exactly when some item went to it,
      and its list is the reference group: the matching items in input
      order. */
  lemma {:induction false} GroupedIsMembers<T>(ps: seq<T>, bin: T -> Option<nat>)
    ensures forall b :: b in Grouped(ps, bin) <==> Members(ps, bin, b) != []
    ensures forall b :: b in Grouped(ps, bin) ==> Grouped(ps, bin)[b] == Members(ps, bin, b)
    decreases |ps|
  {
    if ps != [] {
      GroupedIsMembers(ps[..|ps| - 1], bin);
    }
  }

  /** Filtering distributes over concatenation: the group of a split input
      is the group of the front followed by the group of the back, so a
      group lists its items in input order. */
  lemma {:induction false} MembersAppend<T>(xs: seq<T>, ys: seq<T>, bin: T -> Option<nat>, b: nat)
    ensures Members(xs + ys, bin, b) == Members(xs, bin, b) + Members(ys, bin, b)
    decreases |ys|
  {
    if ys == [] {
      assert xs + ys == xs;
    } else {
      var init := ys[..|ys| - 1];
      assert (xs + ys)[..|xs + ys| - 1] == xs + init;
      MembersAppend(xs, init, bin, b);
    }
  }

  /** Each group holds, for every item, as many copies as the input holds
      when the item's bin is the group's bin, and none otherwise. */
  lemma {:induction false} MembersCount<T>(ps: seq<T>, bin: T -> Option<nat>, b: nat, x: T)
    ensures multiset(Members(ps, bin, b))[x] == if bin(x) == Some(b) then multiset(ps)[x] else 0
    decreases |ps|
  {
    if ps != [] {
      var init, p := ps[..|ps| - 1], ps[|ps| - 1];
      MembersCount(init, bin, b, x);
      assert ps == init + [p];
    }
  }

  /** The groups partition the kept items: an item with bin `b` appears in
      group `b` as often as in the input and in no other group; a dropped
      item appears in no group. */
  lemma Partition<T>(ps: seq<T>, bin: T -> Option<nat>, x: T)
    ensures forall b :: b in Grouped(ps, bin) ==>
              multiset(Grouped(ps, bin)[b])[x] == if bin(x) == Some(b) then multiset(ps)[x] else 0
    ensures x in ps && bin(x).Some? ==>
              bin(x).value in Grouped(ps, bin) && x in Grouped(ps, bin)[bin(x).value]
  {
    GroupedIsMembers(ps, bin);
    forall b | b in Grouped(ps, bin)
      ensures multiset(Grouped(ps, bin)[b])[x] == if bin(x) == Some(b) then multiset(ps)[x] else 0
    {
      MembersCount(ps, bin, b, x);
    }
    if x in ps && bin(x).Some? {
      MembersCount(ps, bin, bin(x).value, x);
      assert x in multiset(ps);
    }
  }

  /** Only bins that received an item are keys. */
  lemma BinKeys<T>(ps: seq<T>, bin: T -> Option<nat>, b: nat)
    ensures b in Grouped(ps, bin) <==> exists i :: 0 <= i < |ps| && bin(ps[i]) == Some(b)
  {
    GroupedIsMembers(ps, bin);
    if b in Grouped(ps, bin) {
      var x := Members(ps, bin, b)[0];
      MembersCount(ps, bin, b, x);
      assert x in multiset(Members(ps, bin, b));
      assert x in ps;
      var i :| 0 <= i < |ps| && ps[i] == x;
    }
    if exists i :: 0 <= i < |ps| && bin(ps[i]) == Some(b) {
      var i :| 0 <= i < |ps| && bin(ps[i]) == Some(b);
      MembersCount(ps, bin, b, ps[i]);
      assert ps[i] in multiset(ps);
    }
  }

  // ---------------------------------------------------------------------
  // Total size of the groups

  /** Sum of the lengths of the lists stored under the bins below `n`. */
  function SizeBelow<T>(m: map<nat, seq<T>>, n: nat): nat {
    if n == 0 then 0 else SizeBelow(m, n - 1) + (if n - 1 in m then |m[n - 1]| else 0)
  }

  /** Appending one item to the list of a bin below `n` adds one to the
      sum. */
  lemma {:induction false} SizeBelowAppend<T>(m: map<nat, seq<T>>, k: nat, x: T, n: nat)
    requires k < n
    ensures SizeBelow(m[k := (if k in m then m[k] else []) + [x]], n) == SizeBelow(m, n) + 1
    decreases n
  {
    var m' := m[k := (if k in m then m[k] else []) + [x]];
    if k < n - 1 {
      SizeBelowAppend(m, k, x, n - 1);
    } else {
      SizeBelowUnchanged(m, m', n - 1);
    }
  }

  lemma {:induction false} SizeBelowUnchanged<T>(m: map<nat, seq<T>>, m': map<nat, seq<T>>, n: nat)
    requires forall b :: b < n ==> (b in m <==> b in m')
    requires forall b :: b < n && b in m ==> m[b] == m'[b]
    ensures SizeBelow(m, n) == SizeBelow(m', n)
    decreases n
  {
    if n > 0 {
      SizeBelowUnchanged(m, m', n - 1);
    }
  }

  lemma {:induction false} SizeBelowEmpty<T>(m: map<nat, seq<T>>, n: nat)
    requires m == map[]
    ensures SizeBelow(m, n) == 0
    decreases n
  {
    if n > 0 {
      SizeBelowEmpty(m, n - 1);
    }
  }

  /** All groups together hold exactly as many items as there are kept
      items: summing the list lengths over every bin up to any bound above
      the largest bin gives the number of kept items. */
  lemma {:induction false} GroupedTotal<T>(ps: seq<T>, bin: T -> Option<nat>, n: nat)
    requires forall b :: b in Grouped(ps, bin) ==> b < n
    ensures SizeBelow(Grouped(ps, bin), n) == |Kept(ps, bin)|
    decreases |ps|
  {
    if ps != [] {
      var init := ps[..|ps| - 1];
      var p := ps[|ps| - 1];
      var g := Grouped(init, bin);
      assert forall b :: b in g ==> b in Grouped(ps, bin);
      GroupedTotal(init, bin, n);
      match bin(p)
      case None =>
        assert Grouped(ps, bin) == g && Kept(ps, bin) == Kept(init, bin);
      case Some(b) =>
        assert Grouped(ps, bin) == g[b := (if b in g then g[b] else []) + [p]];
        assert b in Grouped(ps, bin);
        SizeBelowAppend(g, b, p, n);
        assert Kept(ps, bin) == Kept(init, bin) + [p];
    } else {
      SizeBelowEmpty(Grouped(ps, bin), n);
    }
  }

  // ---------------------------------------------------------------------
  // The loop of `process_puzzles`

  /** The grouping loop: one pass over the records, appending each kept
      record to the list of its bin. */
  method GroupByRating(puzzles: seq<Record>) returns (groups: map<nat, seq<Record>>)
    ensures groups == Grouped(puzzles, BinOf)
    ensures forall b :: b in groups <==> Members(puzzles, BinOf, b) != []
    ensures forall b :: b in groups ==> groups[b] == Members(puzzles, BinOf, b)
  {
    groups := map[];
    var i := 0;
    while i < |puzzles|
      invariant 0 <= i <= |puzzles|
      invariant groups == Grouped(puzzles[..i], BinOf)
    {
      var p := puzzles[i];
      ghost var before := groups;
      var bin := BinOf(p);
      if bin.Some? {
        var b := bin.value;
        var list := if b in groups then groups[b] else [];
        groups := groups[b := list + [p]];
      }
      assert groups == AddRecord(before, p, BinOf);
      assert puzzles[..i + 1][..i] == puzzles[..i];
      i := i + 1;
    }
    assert puzzles[..i] == puzzles;
    GroupedIsMembers(puzzles, BinOf);
  }
}
