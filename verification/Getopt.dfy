/**
 The scanning part of getopt_long: options are returned one call at a time, non-options are
 skipped and moved behind them. What an option is called and whether it takes an argument
 is left to an oracle that says how many letters the entry holds and how many entries it uses.
 */
module Getopt {
  import opened PermuteArgs

  /** Anything that does not start with '-', and "-" itself. */
  predicate NonOption(s: string) {
    s == [] || s[0] != '-' || |s| == 1
  }

  /** An option is a dash and at least one more character. */
  lemma OptionSpelled(s: string)
    ensures !NonOption(s) <==> exists c: char, rest: string :: s == "-" + [c] + rest
  {
    if !NonOption(s) {
      assert s == "-" + [s[1]] + s[2..];
    }
  }

  /** Recognition of option entries: letters returned one by one, then entries used. */
  datatype Oracle = Oracle(letters: string -> nat, uses: seq<string> -> nat) {

    function Letters(s: string): (n: nat)
      ensures n >= 1
    {
      if letters(s) == 0 then 1 else letters(s)
    }

    /** At least the entry itself, at most all that is left. */
    function Uses(rest: seq<string>): (n: nat)
      requires rest != []
      ensures 1 <= n <= |rest|
    {
      if uses(rest) == 0 then 1 else if uses(rest) > |rest| then |rest| else uses(rest)
    }
  }

  /** What the oracle says is taken as it is, if it makes sense. */
  lemma OracleFollowed(o: Oracle, rest: seq<string>)
    requires rest != []
    ensures 1 <= o.uses(rest) <= |rest| ==> o.Uses(rest) == o.uses(rest)
    ensures o.letters(rest[0]) >= 1 ==> o.Letters(rest[0]) == o.letters(rest[0])
  {
  }

  // ---- what a scan should leave

  /** Options with their arguments, skipped non-options, and where the scan stops. */
  datatype Sorted = Sorted(opts: seq<string>, nons: seq<string>, end: nat)

  /** The entries of args from i on, sorted into options and non-options. */
  ghost function Sort(args: seq<string>, i: nat, oracle: Oracle): (r: Sorted)
    requires i <= |args|
    ensures i <= r.end <= |args|
    ensures |r.opts| + |r.nons| == r.end - i
    decreases |args| - i
  {
    if i == |args| then Sorted([], [], i)
    else if NonOption(args[i]) then
      var r := Sort(args, i + 1, oracle);
      r.(nons := [args[i]] + r.nons)
    else if args[i] == "--" then Sorted(["--"], [], i + 1)
    else
      var k := oracle.Uses(args[i..]);
      var r := Sort(args, i + k, oracle);
      r.(opts := args[i..i + k] + r.opts)
  }

  /** s is x and y merged, each in its own order. */
  ghost predicate Merges<A>(x: seq<A>, y: seq<A>, s: seq<A>)
    decreases |s|
  {
    if s == [] then x == [] && y == []
    else
      || (x != [] && x[0] == s[0] && Merges(x[1..], y, s[1..]))
      || (y != [] && y[0] == s[0] && Merges(x, y[1..], s[1..]))
  }

  lemma {:induction false} MergesLeft<A>(w: seq<A>, x: seq<A>, y: seq<A>, s: seq<A>)
    requires Merges(x, y, s)
    ensures Merges(w + x, y, w + s)
    decreases |w|
  {
    if w == [] {
      assert w + x == x && w + s == s;
    } else {
      MergesLeft(w[1..], x, y, s);
      assert (w + x)[1..] == w[1..] + x && (w + s)[1..] == w[1..] + s;
    }
  }

  lemma MergesRight<A>(a: A, x: seq<A>, y: seq<A>, s: seq<A>)
    requires Merges(x, y, s)
    ensures Merges(x, [a] + y, [a] + s)
  {
    assert ([a] + y)[1..] == y && ([a] + s)[1..] == s;
  }

  /** r is a stable partition of args[i..r.end] that stops early only after "--". */
  ghost predicate Stable(args: seq<string>, i: nat, r: Sorted) {
    && i <= r.end <= |args|
    && Merges(r.opts, r.nons, args[i..r.end])
    && (forall s | s in r.nons :: NonOption(s))
    && (r.end < |args| ==> r.opts != [] && r.opts[|r.opts| - 1] == "--")
  }

  lemma StableSkip(args: seq<string>, i: nat, r: Sorted)
    requires i < |args| && NonOption(args[i]) && Stable(args, i + 1, r)
    ensures Stable(args, i, r.(nons := [args[i]] + r.nons))
  {
    assert args[i..r.end] == [args[i]] + args[i + 1..r.end];
    MergesRight(args[i], r.opts, r.nons, args[i + 1..r.end]);
  }

  lemma StableTake(args: seq<string>, i: nat, k: nat, r: Sorted)
    requires i + k <= |args| && Stable(args, i + k, r)
    ensures Stable(args, i, r.(opts := args[i..i + k] + r.opts))
  {
    assert args[i..r.end] == args[i..i + k] + args[i + k..r.end];
    MergesLeft(args[i..i + k], r.opts, r.nons, args[i + k..r.end]);
  }

  /** Sorting keeps the order of the options and of the non-options, and loses nothing. */
  lemma {:induction false} SortIsStable(args: seq<string>, i: nat, oracle: Oracle)
    requires i <= |args|
    ensures Stable(args, i, Sort(args, i, oracle))
    decreases |args| - i
  {
    hide Stable;
    if i == |args| {
      StableEnd(args);
    } else if NonOption(args[i]) {
      SortIsStable(args, i + 1, oracle);
      StableSkip(args, i, Sort(args, i + 1, oracle));
    } else if args[i] == "--" {
      StableDashes(args, i);
    } else {
      var k := oracle.Uses(args[i..]);
      SortIsStable(args, i + k, oracle);
      StableTake(args, i, k, Sort(args, i + k, oracle));
    }
  }

  /** Where the pieces of a scan begin and end: each is a non-option, an option with the entries it uses, or "--". */
  ghost predicate Pieces(args: seq<string>, oracle: Oracle, i: nat, end: nat, cuts: seq<nat>) {
    && |cuts| > 0 && cuts[0] == i && cuts[|cuts| - 1] == end <= |args|
    && (forall j | 0 <= j < |cuts| - 1 :: Piece(args, oracle, cuts[j], cuts[j + 1]))
    && (forall j | 0 <= j < |cuts| - 2 :: cuts[j] < |args| && args[cuts[j]] != "--")
  }

  /** Entries are left over only behind "--". */
  ghost predicate Ends(args: seq<string>, end: nat, cuts: seq<nat>) {
    end < |args| ==> |cuts| > 1 && cuts[|cuts| - 2] < |args| && args[cuts[|cuts| - 2]] == "--"
  }

  ghost predicate Piece(args: seq<string>, oracle: Oracle, p: nat, q: nat) {
    && p < q <= |args|
    && q - p == if NonOption(args[p]) || args[p] == "--" then 1 else oracle.Uses(args[p..])
  }

  /** The entries with that mark, in order. */
  ghost function Chosen(s: seq<string>, marks: seq<bool>, b: bool): seq<string>
    requires |s| == |marks|
  {
    if s == [] then [] else (if marks[0] == b then [s[0]] else []) + Chosen(s[1..], marks[1..], b)
  }

  /** Every entry goes where its piece goes: to the options unless the piece is a non-option. */
  ghost predicate Sides(args: seq<string>, i: nat, cuts: seq<nat>, marks: seq<bool>) {
    forall j | 0 <= j < |cuts| - 1 :: SideOf(args, i, cuts[j], cuts[j + 1], marks)
  }

  ghost predicate SideOf(args: seq<string>, i: nat, p: nat, q: nat, marks: seq<bool>) {
    i <= p < |args| && q - i <= |marks| && forall x | p - i <= x < q - i :: marks[x] == !NonOption(args[p])
  }

  lemma {:induction false} ChosenAppend(s: seq<string>, t: seq<string>, m: seq<bool>, n: seq<bool>, b: bool)
    requires |s| == |m| && |t| == |n|
    ensures Chosen(s + t, m + n, b) == Chosen(s, m, b) + Chosen(t, n, b)
    decreases |s|
  {
    if s == [] {
      assert s + t == t && m + n == n;
    } else {
      assert (s + t)[1..] == s[1..] + t && (m + n)[1..] == m[1..] + n;
      ChosenAppend(s[1..], t, m[1..], n, b);
    }
  }

  lemma {:induction false} ChosenAll(s: seq<string>, c: bool, b: bool)
    ensures Chosen(s, seq(|s|, _ => c), b) == if c == b then s else []
    decreases |s|
  {
    if s != [] {
      assert seq(|s|, _ => c)[1..] == seq(|s[1..]|, _ => c);
      ChosenAll(s[1..], c, b);
      assert [s[0]] + s[1..] == s;
    }
  }

  /** One more piece in front. */
  lemma PieceFront(args: seq<string>, oracle: Oracle, p: nat, q: nat, end: nat, cuts: seq<nat>)
    requires Piece(args, oracle, p, q) && Pieces(args, oracle, q, end, cuts) && (|cuts| > 1 ==> args[p] != "--")
    requires if |cuts| == 1 then end < |args| ==> args[p] == "--" else Ends(args, end, cuts)
    ensures Pieces(args, oracle, p, end, [p] + cuts) && Ends(args, end, [p] + cuts)
  {
    hide NonOption, Piece;
    PieceGoes(args, oracle, p, q);
    var all := [p] + cuts;
    forall j | 0 <= j < |all| - 1
      ensures Piece(args, oracle, all[j], all[j + 1])
      ensures j < |all| - 2 ==> all[j] < |args| && args[all[j]] != "--"
    {
      if j > 0 {
        assert Piece(args, oracle, cuts[j - 1], cuts[j]);
        assert j - 1 < |cuts| - 2 ==> args[cuts[j - 1]] != "--";
      }
    }
  }

  lemma SidesFront(args: seq<string>, p: nat, q: nat, cuts: seq<nat>, marks: seq<bool>)
    requires p < q <= |args| && p < |args| && |cuts| > 0 && cuts[0] == q && Sides(args, q, cuts, marks)
    ensures Sides(args, p, [p] + cuts, seq(q - p, _ => !NonOption(args[p])) + marks)
  {
    hide NonOption;
    var all, more := [p] + cuts, seq(q - p, _ => !NonOption(args[p])) + marks;
    forall j | 0 <= j < |all| - 1 ensures SideOf(args, p, all[j], all[j + 1], more) {
      if j > 0 {
        assert SideOf(args, q, cuts[j - 1], cuts[j], marks);
      }
    }
  }

  lemma ChosenFront(args: seq<string>, p: nat, q: nat, end: nat, c: bool, marks: seq<bool>, b: bool)
    requires p < q <= end <= |args| && |marks| == end - q
    ensures |seq(q - p, _ => c) + marks| == |args[p..end]|
    ensures Chosen(args[p..end], seq(q - p, _ => c) + marks, b) ==
            (if b == c then args[p..q] else []) + Chosen(args[q..end], marks, b)
  {
    assert args[p..end] == args[p..q] + args[q..end];
    ChosenAppend(args[p..q], args[q..end], seq(q - p, _ => c), marks, b);
    ChosenAll(args[p..q], c, b);
  }

  /** Where the piece at i ends. */
  ghost function PieceEnd(args: seq<string>, i: nat, oracle: Oracle): (q: nat)
    requires i < |args|
    ensures Piece(args, oracle, i, q)
  {
    if NonOption(args[i]) || args[i] == "--" then i + 1 else i + oracle.Uses(args[i..])
  }

  /** What sorting puts where: piece by piece, with nothing but "--" ending it early. */
  lemma {:induction false} SortedByPieces(args: seq<string>, i: nat, oracle: Oracle)
      returns (cuts: seq<nat>, marks: seq<bool>)
    requires i <= |args|
    ensures var r := Sort(args, i, oracle);
            && Pieces(args, oracle, i, r.end, cuts) && Ends(args, r.end, cuts)
            && |marks| == r.end - i && Sides(args, i, cuts, marks)
            && r.opts == Chosen(args[i..r.end], marks, true) && r.nons == Chosen(args[i..r.end], marks, false)
    decreases |args| - i
  {
    hide Chosen, Sides, Piece, Pieces, Ends, NonOption;
    if i == |args| {
      cuts, marks := [i], [];
      NoPieces(args, oracle, i);
    } else {
      var q, c := PieceEnd(args, i, oracle), !NonOption(args[i]);
      SortStep(args, i, oracle, q);
      PieceGoes(args, oracle, i, q);
      if args[i] == "--" {
        cuts, marks := [q], [];
        NoPieces(args, oracle, q);
      } else {
        cuts, marks := SortedByPieces(args, q, oracle);
        CutsAre(args, oracle, q, Sort(args, q, oracle).end, cuts);
      }
      var end := Sort(args, i, oracle).end;
      PieceFront(args, oracle, i, q, end, cuts);
      SidesFront(args, i, q, cuts, marks);
      ChosenFront(args, i, q, end, c, marks, true);
      ChosenFront(args, i, q, end, c, marks, false);
      cuts, marks := [i] + cuts, seq(q - i, _ => c) + marks;
    }
  }

  lemma SortStep(args: seq<string>, i: nat, oracle: Oracle, q: nat)
    requires i < |args| && q == PieceEnd(args, i, oracle)
    ensures var r := Sort(args, i, oracle); var opt := if NonOption(args[i]) then [] else args[i..q];
            var non := if NonOption(args[i]) then args[i..q] else [];
            if args[i] == "--" then r == Sorted(opt, non, q) && !NonOption(args[i])
            else q <= |args| && r.end == Sort(args, q, oracle).end
                 && r.opts == opt + Sort(args, q, oracle).opts && r.nons == non + Sort(args, q, oracle).nons
  {
    assert args[i..i + 1] == [args[i]];
  }

  lemma PieceGoes(args: seq<string>, oracle: Oracle, p: nat, q: nat)
    requires Piece(args, oracle, p, q)
    ensures p < q <= |args|
  {
  }

  lemma CutsAre(args: seq<string>, oracle: Oracle, i: nat, end: nat, cuts: seq<nat>)
    requires Pieces(args, oracle, i, end, cuts) && Ends(args, end, cuts)
    ensures |cuts| > 0 && cuts[0] == i && (|cuts| == 1 ==> end == i == |args|)
  {
  }

  lemma NoPieces(args: seq<string>, oracle: Oracle, i: nat)
    requires i <= |args|
    ensures Pieces(args, oracle, i, i, [i]) && Sides(args, i, [i], []) && (i == |args| ==> Ends(args, i, [i]))
    ensures args[i..i] == [] && Chosen([], [], true) == [] && Chosen([], [], false) == []
  {
  }

  lemma StableEnd(args: seq<string>)
    ensures Stable(args, |args|, Sorted([], [], |args|))
  {
  }

  lemma StableDashes(args: seq<string>, i: nat)
    requires i < |args| && args[i] == "--"
    ensures Stable(args, i, Sorted(["--"], [], i + 1))
  {
    assert args[i..i + 1] == ["--"];
    assert Merges(["--"][1..], [], ["--"][1..]);
  }

  // ---- the scanner

  /** Options sorted so far with the skipped non-options after the first b of them, in place. */
  ghost function Layout(orig: seq<string>, first: nat, opts: seq<string>, nons: seq<string>, b: nat,
      i: nat): seq<string>
    requires first <= |orig| && i <= |orig| && b <= |opts|
  {
    orig[..first] + (opts[..b] + nons + opts[b..]) + orig[i..]
  }

  lemma LayoutSkip(orig: seq<string>, first: nat, opts: seq<string>, nons: seq<string>, i: nat)
    requires first <= |orig| && i < |orig|
    ensures Layout(orig, first, opts, nons + [orig[i]], |opts|, i + 1) == Layout(orig, first, opts, nons, |opts|, i)
  {
    assert orig[i..] == [orig[i]] + orig[i + 1..];
  }

  lemma LayoutTake(orig: seq<string>, first: nat, opts: seq<string>, nons: seq<string>, b: nat, i: nat, k: nat)
    requires first <= |orig| && i + k <= |orig| && b <= |opts|
    ensures Layout(orig, first, opts + orig[i..i + k], nons, b, i + k) == Layout(orig, first, opts, nons, b, i)
  {
    var used := orig[i..i + k];
    assert orig[i..] == used + orig[i + k..];
    assert (opts + used)[..b] == opts[..b] && (opts + used)[b..] == opts[b..] + used;
  }

  /** With nothing skipped it does not matter where the non-options would lie. */
  lemma LayoutNone(orig: seq<string>, first: nat, opts: seq<string>, b: nat, c: nat, i: nat)
    requires first <= |orig| && i <= |orig| && b <= |opts| && c <= |opts|
    ensures Layout(orig, first, opts, [], b, i) == Layout(orig, first, opts, [], c, i)
  {
    assert opts[..b] + [] + opts[b..] == opts == opts[..c] + [] + opts[c..];
  }

  /** Exchanging the skipped non-options with the options behind them. */
  lemma LayoutExchange(orig: seq<string>, first: nat, opts: seq<string>, nons: seq<string>, b: nat, i: nat)
    requires first <= |orig| && i <= |orig| && b <= |opts|
    ensures var s := first + b;
            Exchanged(Layout(orig, first, opts, nons, b, i), s, s + |nons|, s + |nons| + (|opts| - b)) ==
            Layout(orig, first, opts, nons, |opts|, i)
  {
    hide Exchanged;
    var x, y, z, w := orig[..first], opts[..b], opts[b..], orig[i..];
    ExchangeParts(x + y, nons, z, w);
    Regroup(x, y, nons, z, w);
    Regroup(x, y, z, nons, w);
    assert y + z == opts;
    LayoutDone(orig, first, opts, nons, i);
  }

  lemma Regroup<A>(x: seq<A>, y: seq<A>, z: seq<A>, v: seq<A>, w: seq<A>)
    ensures x + (y + z + v) + w == (x + y) + z + v + w
  {
    assert x + (y + z + v) == (x + y) + z + v;
  }

  lemma ExchangeParts<A>(x: seq<A>, y: seq<A>, z: seq<A>, w: seq<A>)
    ensures Exchanged(x + y + z + w, |x|, |x| + |y|, |x| + |y| + |z|) == x + z + y + w
  {
    var a := x + y + z + w;
    assert a[..|x|] == x && a[|x|..|x| + |y|] == y && a[|x| + |y|..|x| + |y| + |z|] == z && a[|x| + |y| + |z|..] == w;
  }

  lemma LayoutDone(orig: seq<string>, first: nat, opts: seq<string>, nons: seq<string>, i: nat)
    requires first <= |orig| && i <= |orig|
    ensures Layout(orig, first, opts, nons, |opts|, i) == orig[..first] + (opts + nons) + orig[i..]
  {
    assert opts[..|opts|] + nons + opts[|opts|..] == opts + nons;
  }

  lemma LayoutUnseen(orig: seq<string>, first: nat, opts: seq<string>, nons: seq<string>, b: nat, i: nat)
    requires first <= i <= |orig| && b <= |opts| && |opts| + |nons| == i - first
    ensures Layout(orig, first, opts, nons, b, i)[i..] == orig[i..]
  {
  }

  class Scanner {
    var optind: nat
    var nonoptStart: int
    var nonoptEnd: int
    /** Letters left in the current entry; zero when the next entry is to be looked at. */
    var place: nat

    ghost const orig: seq<string>
    ghost const first: nat
    ghost const oracle: Oracle
    ghost var opts: seq<string>
    ghost var nons: seq<string>

    constructor (args: array<string>, start: nat, ghost o: Oracle)
      requires start <= args.Length
      ensures Scanning(args[..]) && place == 0
      ensures orig == args[..] && first == start && oracle == o
    {
      optind, nonoptStart, nonoptEnd, place := start, -1, -1, 0;
      orig, first, oracle, opts, nons := args[..], start, o, [], [];
      new;
      var r := Sort(orig, first, oracle);
      assert [] + r.opts == r.opts && [] + r.nons == r.nons;
    }

    /** How many of the options seen so far lie before the skipped non-options. */
    ghost function Before(): int
      reads this
    {
      if nonoptStart == -1 then |opts| else nonoptStart - first
    }

    /** Between entries or inside one: what has been sorted so far and where it lies. */
    ghost predicate Tracking(args: seq<string>)
      reads this
    {
      && first <= optind <= |orig| == |args|
      && |opts| + |nons| == optind - first
      && 0 <= Before() <= |opts|
      && args == Layout(orig, first, opts, nons, Before(), optind)
      && SortedSoFar()
      && (nonoptStart == -1 ==> nonoptEnd == -1 && nons == [])
      && (nonoptStart != -1 ==> nons != [])
      && (nonoptStart != -1 && nonoptEnd == -1 ==> Before() == |opts|)
      && (nonoptEnd != -1 ==> nonoptEnd == nonoptStart + |nons|)
    }

    ghost predicate SortedSoFar()
      reads this
      requires first <= |orig| && optind <= |orig|
    {
      var r := Sort(orig, optind, oracle);
      Sort(orig, first, oracle) == Sorted(opts + r.opts, nons + r.nons, r.end)
    }

    ghost predicate Scanning(args: seq<string>)
      reads this
    {
      && Tracking(args)
      && (nonoptEnd != -1 ==> Before() < |opts| || place > 0)
      && (place > 0 ==> AtOption())
    }

    /** The entry under optind is an option other than the "--" that ends the scan. */
    ghost predicate AtOption()
      reads this
    {
      optind < |orig| && !NonOption(orig[optind]) && orig[optind] != "--" && (nonoptStart != -1 ==> nonoptEnd != -1)
    }

    /** The scan is over: options first, then what was skipped, then what was not looked at. */
    ghost predicate Finished(args: seq<string>)
      reads this
      requires first <= |orig|
    {
      var r := Sort(orig, first, oracle);
      && args == Layout(orig, first, r.opts, r.nons, |r.opts|, r.end)
      && optind == first + |r.opts|
    }

    /** Moves the skipped non-options behind the options that followed them. */
    method MoveBack(argv: array<string>)
      requires first <= optind <= |orig| == argv.Length && |opts| + |nons| == optind - first
      requires nonoptStart != -1 && 0 <= Before() < |opts| && nons != [] && nonoptEnd == nonoptStart + |nons|
      requires argv[..] == Layout(orig, first, opts, nons, Before(), optind)
      modifies argv
      ensures argv[..] == Layout(orig, first, opts, nons, |opts|, optind)
    {
      hide Layout, Exchanged;
      LayoutExchange(orig, first, opts, nons, Before(), optind);
      Permute(argv, nonoptStart, nonoptEnd, optind);
    }

    /** Skips non-options up to the next option; at the end or at "--" the scan is over. */
    method FindOption(argv: array<string>, o: Oracle) returns (done: bool)
      requires Scanning(argv[..]) && place == 0 && o == oracle
      modifies this, argv
      ensures done ==> Finished(argv[..])
      ensures !done ==> Tracking(argv[..]) && AtOption() && place > 0 && old(optind) <= optind
    {
      while true
        invariant Scanning(argv[..]) && place == 0 && old(optind) <= optind
        decreases |orig| - optind
      {
        if optind >= argv.Length {
          SortEnds();
          if nonoptEnd != -1 {
            MoveBack(argv);
            optind := optind - (nonoptEnd - nonoptStart);
          } else if nonoptStart != -1 {
            optind := nonoptStart;
          }
          nonoptStart, nonoptEnd := -1, -1;
          return true;
        }
        LayoutUnseen(orig, first, opts, nons, Before(), optind);
        assert argv[optind] == argv[..][optind..][0] == orig[optind];
        if NonOption(argv[optind]) {
          SkipOne(argv);
        } else {
          if nonoptStart != -1 && nonoptEnd == -1 {
            nonoptEnd := optind;
          }
          if argv[optind] == "--" {
            StopAtDashes(argv);
            return true;
          }
          place := o.Letters(argv[optind]);
          return false;
        }
      }
    }

    /** A non-option: join it to those skipped before it. */
    method SkipOne(argv: array<string>)
      requires Scanning(argv[..]) && place == 0 && optind < argv.Length && NonOption(orig[optind])
      modifies this, argv
      ensures Scanning(argv[..]) && place == 0 && optind == old(optind) + 1
    {
      hide Layout;
      LayoutSkip(orig, first, opts, nons, optind);
      SortSkips();
      if nonoptStart == -1 {
        nonoptStart := optind;
      } else if nonoptEnd != -1 {
        MoveBack(argv);
        nonoptStart := optind - (nonoptEnd - nonoptStart);
        nonoptEnd := -1;
      }
      nons := nons + [orig[optind]];
      optind := optind + 1;
    }

    /** "--": it counts as an option, and what was skipped goes behind it. */
    method StopAtDashes(argv: array<string>)
      requires Tracking(argv[..]) && place == 0 && optind < argv.Length && orig[optind] == "--"
      requires nonoptStart != -1 ==> nonoptEnd != -1
      modifies this, argv
      ensures Finished(argv[..])
    {
      hide Layout;
      ghost var b := Before();
      LayoutTake(orig, first, opts, nons, b, optind, 1);
      assert orig[optind..optind + 1] == ["--"];
      SortStops();
      opts := opts + ["--"];
      optind := optind + 1;
      if nonoptEnd != -1 {
        MoveBack(argv);
        optind := optind - (nonoptEnd - nonoptStart);
      } else {
        LayoutNone(orig, first, opts, b, |opts|, optind);
      }
      nonoptStart, nonoptEnd := -1, -1;
    }

    /** The last letter of an option has been returned: step over the entries it used. */
    method Consume(argv: array<string>, o: Oracle)
      requires Tracking(argv[..]) && AtOption() && place == 0 && o == oracle
      modifies this
      ensures Scanning(argv[..]) && place == 0 && old(optind) < optind
    {
      hide Layout;
      LayoutUnseen(orig, first, opts, nons, Before(), optind);
      assert argv[optind..] == argv[..][optind..];
      var k := o.Uses(argv[optind..]);
      ghost var b := Before();
      LayoutTake(orig, first, opts, nons, b, optind, k);
      SortTakes(k);
      opts := opts + orig[optind..optind + k];
      optind := optind + k;
      if nonoptStart == -1 {
        LayoutNone(orig, first, opts, b, |opts|, optind);
      }
    }

    /** What sorting the entry under optind adds to what is sorted already. */
    lemma SortSkips()
      requires first <= optind < |orig| && NonOption(orig[optind]) && SortedSoFar()
      ensures var r := Sort(orig, optind + 1, oracle);
              Sort(orig, first, oracle) == Sorted(opts + r.opts, nons + [orig[optind]] + r.nons, r.end)
    {
      var r := Sort(orig, optind + 1, oracle);
      assert nons + ([orig[optind]] + r.nons) == nons + [orig[optind]] + r.nons;
    }

    lemma SortTakes(k: nat)
      requires first <= optind < |orig| && !NonOption(orig[optind]) && orig[optind] != "--" && SortedSoFar()
      requires k == oracle.Uses(orig[optind..])
      ensures var r := Sort(orig, optind + k, oracle);
              Sort(orig, first, oracle) == Sorted(opts + orig[optind..optind + k] + r.opts, nons + r.nons, r.end)
    {
      var r := Sort(orig, optind + k, oracle);
      var used := orig[optind..optind + k];
      assert opts + (used + r.opts) == opts + used + r.opts;
    }

    lemma SortStops()
      requires first <= optind < |orig| && orig[optind] == "--" && SortedSoFar()
      ensures Sort(orig, first, oracle) == Sorted(opts + ["--"], nons, optind + 1)
    {
      assert nons + [] == nons;
    }

    /** At the end of the arguments nothing is left to sort. */
    lemma SortEnds()
      requires first <= optind == |orig| && SortedSoFar()
      ensures Sort(orig, first, oracle) == Sorted(opts, nons, |orig|)
    {
      assert opts + [] == opts && nons + [] == nons;
    }

    /** One call: finds the next option, or reports the end of the scan. */
    method Next(argv: array<string>, o: Oracle) returns (done: bool)
      requires Scanning(argv[..]) && o == oracle
      modifies this, argv
      ensures done ==> Finished(argv[..])
      ensures !done ==> Scanning(argv[..])
      ensures !done ==>
        || old(optind) < optind
        || (old(optind) == optind && (if old(place) == 0 then 0 < place else 0 < place < old(place)))
    {
      if place == 0 {
        done := FindOption(argv, o);
        if done {
          return;
        }
      }
      place := place - 1;
      if place == 0 {
        Consume(argv, o);
      }
      return false;
    }
  }

  /** The caller's loop: calls until the end is reported. */
  method ScanAll(argv: array<string>, start: nat, o: Oracle) returns (optind: nat)
    requires start <= argv.Length
    modifies argv
    ensures var was := old(argv[..]);
            var r := Sort(was, start, o);
            && argv[..] == was[..start] + (r.opts + r.nons) + was[r.end..]
            && optind == start + |r.opts|
  {
    hide Layout, Sort;
    var scanner := new Scanner(argv, start, o);
    var done := false;
    while !done
      invariant scanner.orig == old(argv[..]) && scanner.first == start && scanner.oracle == o
      invariant if done then scanner.Finished(argv[..]) else scanner.Scanning(argv[..])
      invariant fresh(scanner)
      decreases if done then 0 else 1, argv.Length - scanner.optind, if scanner.place == 0 then 1 else 0, scanner.place
    {
      done := scanner.Next(argv, o);
    }
    optind := scanner.optind;
    ghost var r := Sort(old(argv[..]), start, o);
    LayoutDone(old(argv[..]), start, r.opts, r.nons, r.end);
  }
}
