/** The state machine of getopt_long (src/bsd/getopt_long.c): it hands out the options of an
  argument vector one call at a time and meanwhile moves the non-options behind the options.

  How one option word is spelled is left to a decoder; what is modelled is which words are
  examined, in what order, and where they end up.
 */
module Getopt {
  import Arith
  import opened Partition
  import opened Rotation

  type Word = string

  /** What a call returns: -1, an option found in a word, or (mode ReturnInOrder) a non-option
      reported as the argument of option 1. */
  datatype Outcome = Done | Found(word: Word)

  /** FLAG_PERMUTE, neither flag, FLAG_ALLARGS. */
  datatype Mode = Permute | StopAtNonOption | ReturnInOrder

  /** An option word holds moreLetters letters after the first one that returns, and asks for
      separateArgs further words as arguments. */
  datatype Decoded = Decoded(moreLetters: nat, separateArgs: nat)

  /** Decodes the option word at the head of the words not yet examined. */
  type Decoder = seq<Word> -> Decoded

  /** Words consumed by the option at the head; missing arguments end at the end of the vector. */
  function Consumed(d: Decoder, rest: seq<Word>): (k: nat)
    requires rest != []
    ensures 1 <= k <= |rest|
  {
    var k := 1 + d(rest).separateArgs;
    if k <= |rest| then k else |rest|
  }

  predicate IsOption(w: Word) {
    |w| >= 2 && w[0] == '-'
  }

  // What a whole run should do, as one pass over the original vector

  /** For each examined word whether it is consumed (an option, an argument, "--") or skipped. */
  ghost function Scan(d: Decoder, mode: Mode, rest: seq<Word>): (tags: seq<bool>)
    ensures |tags| <= |rest|
    decreases |rest|
  {
    if rest == [] then []
    else if !IsOption(rest[0]) then
      match mode
      case Permute => [false] + Scan(d, mode, rest[1..])
      case StopAtNonOption => []
      case ReturnInOrder => [true] + Scan(d, mode, rest[1..])
    else if rest[0] == "--" then [true]
    else
      var k := Consumed(d, rest);
      Trues(k) + Scan(d, mode, rest[k..])
  }

  /** The words the caller is shown, one for each call before the last. */
  ghost function Shown(d: Decoder, mode: Mode, rest: seq<Word>): seq<Word>
    decreases |rest|
  {
    if rest == [] then []
    else if !IsOption(rest[0]) then
      match mode
      case Permute => Shown(d, mode, rest[1..])
      case StopAtNonOption => []
      case ReturnInOrder => [rest[0]] + Shown(d, mode, rest[1..])
    else if rest[0] == "--" then []
    else Repeat(rest[0], d(rest).moreLetters + 1) + Shown(d, mode, rest[Consumed(d, rest)..])
  }

  // The same pass, case by case

  lemma ScanAtEnd(d: Decoder, mode: Mode)
    ensures Scan(d, mode, []) == [] && Shown(d, mode, []) == []
  {
  }

  /** A word that is no dash followed by something: skipped, the end of the scan, or reported. */
  lemma ScanAtNonOption(d: Decoder, mode: Mode, rest: seq<Word>)
    requires rest != [] && (|rest[0]| < 2 || rest[0][0] != '-')
    ensures mode.Permute? ==>
              && Scan(d, mode, rest) == [false] + Scan(d, mode, rest[1..])
              && Shown(d, mode, rest) == Shown(d, mode, rest[1..])
    ensures mode.StopAtNonOption? ==> Scan(d, mode, rest) == [] && Shown(d, mode, rest) == []
    ensures mode.ReturnInOrder? ==>
              && Scan(d, mode, rest) == [true] + Scan(d, mode, rest[1..])
              && Shown(d, mode, rest) == [rest[0]] + Shown(d, mode, rest[1..])
  {
  }

  lemma ScanAtDashes(d: Decoder, mode: Mode, rest: seq<Word>)
    requires rest != [] && rest[0] == "--"
    ensures Scan(d, mode, rest) == [true] && Shown(d, mode, rest) == []
  {
  }

  /** An option is consumed together with the words it takes as arguments, whatever these look like;
      if there are too few, with all there are. */
  lemma ScanAtOption(d: Decoder, mode: Mode, rest: seq<Word>)
    requires rest != [] && |rest[0]| >= 2 && rest[0][0] == '-' && rest[0] != "--"
    ensures var n := 1 + d(rest).separateArgs;
            n <= |rest| ==>
              && Scan(d, mode, rest) == Trues(n) + Scan(d, mode, rest[n..])
              && Shown(d, mode, rest) == Repeat(rest[0], d(rest).moreLetters + 1) + Shown(d, mode, rest[n..])
    ensures 1 + d(rest).separateArgs > |rest| ==>
              && Scan(d, mode, rest) == Trues(|rest|)
              && Shown(d, mode, rest) == Repeat(rest[0], d(rest).moreLetters + 1)
  {
    ScanAtEnd(d, mode);
    if 1 + d(rest).separateArgs > |rest| {
      assert rest[|rest|..] == [];
      assert Trues(|rest|) + [] == Trues(|rest|);
      var letters := Repeat(rest[0], d(rest).moreLetters + 1);
      assert letters + [] == letters;
    }
  }

  /** An argument that looks like an option is not taken for one. */
  lemma ArgumentIsTaken(d: Decoder)
    requires d(["-o", "-x"]) == Decoded(0, 1)
    ensures Scan(d, Permute, ["-o", "-x"]) == [true, true] && Shown(d, Permute, ["-o", "-x"]) == ["-o"]
  {
    var rest: seq<Word> := ["-o", "-x"];
    assert rest[0] == "-o";
    ScanAtOption(d, Permute, rest);
    ScanAtEnd(d, Permute);
    assert rest[2..] == [];
    assert Trues(2) == [true, true];
    assert Repeat("-o", 1) == ["-o"];
  }

  /** Only non-options are ever skipped, and only mode Permute skips any. */
  lemma {:induction false} SkippedAreNonOptions(d: Decoder, mode: Mode, rest: seq<Word>, k: nat)
    requires k < |Scan(d, mode, rest)| && !Scan(d, mode, rest)[k]
    ensures mode.Permute? && !IsOption(rest[k])
    decreases |rest|
  {
    if !IsOption(rest[0]) {
      if k > 0 {
        SkippedAreNonOptions(d, mode, rest[1..], k - 1);
      }
    } else {
      var n := Consumed(d, rest);
      SkippedAreNonOptions(d, mode, rest[n..], k - n);
    }
  }

  /** Without permutation the vector stays as it is. */
  lemma UnpermutedStays(d: Decoder, mode: Mode, ws: seq<Word>, n: nat)
    requires n <= |ws| && !mode.Permute?
    ensures Arranged(ws, Trues(n) + Scan(d, mode, ws[n..])) == ws
  {
    var plan := Trues(n) + Scan(d, mode, ws[n..]);
    forall k | 0 <= k < |plan| ensures plan[k] {
      if !plan[k] {
        SkippedAreNonOptions(d, mode, ws[n..], k - n);
      }
    }
    ArrangedByTrues(ws, plan);
  }

  /** What the next call of a run of calls finds: the words shown before the end is reported. */
  ghost function ShownFrom(d: Decoder, mode: Mode, rest: seq<Word>, lettersLeft: nat): seq<Word>
    requires lettersLeft > 0 ==> rest != []
  {
    if lettersLeft > 0 then Repeat(rest[0], lettersLeft) + Shown(d, mode, rest[Consumed(d, rest)..])
    else Shown(d, mode, rest)
  }

  /** The tags all words will have got at the end, given those of the words examined. */
  ghost function PlanOf(d: Decoder, mode: Mode, orig: seq<Word>, tags: seq<bool>): (plan: seq<bool>)
    requires |tags| <= |orig|
    ensures |plan| <= |orig|
  {
    tags + Scan(d, mode, orig[|tags|..])
  }

  lemma PlanAfterSkip(d: Decoder, orig: seq<Word>, tags: seq<bool>)
    requires |tags| < |orig| && !IsOption(orig[|tags|])
    ensures PlanOf(d, Permute, orig, tags + [false]) == PlanOf(d, Permute, orig, tags)
    ensures Shown(d, Permute, orig[|tags|..]) == Shown(d, Permute, orig[|tags| + 1..])
  {
    var rest := orig[|tags|..];
    assert rest[1..] == orig[|tags| + 1..];
  }

  lemma PlanAfterReport(d: Decoder, orig: seq<Word>, tags: seq<bool>)
    requires |tags| < |orig| && !IsOption(orig[|tags|])
    ensures PlanOf(d, ReturnInOrder, orig, tags + Trues(1)) == PlanOf(d, ReturnInOrder, orig, tags)
    ensures Shown(d, ReturnInOrder, orig[|tags|..]) == [orig[|tags|]] + Shown(d, ReturnInOrder, orig[|tags| + 1..])
  {
    var rest := orig[|tags|..];
    assert rest[1..] == orig[|tags| + 1..];
    assert Trues(1) == [true];
  }

  lemma PlanAfterOption(d: Decoder, mode: Mode, orig: seq<Word>, tags: seq<bool>)
    requires |tags| < |orig| && IsOption(orig[|tags|])
    ensures orig[|tags|] == "--" ==>
              PlanOf(d, mode, orig, tags) == tags + Trues(1) && Shown(d, mode, orig[|tags|..]) == []
    ensures var rest, k := orig[|tags|..], Consumed(d, orig[|tags|..]);
            orig[|tags|] != "--" ==>
              && PlanOf(d, mode, orig, tags + Trues(k)) == PlanOf(d, mode, orig, tags)
              && Shown(d, mode, rest) == Repeat(rest[0], d(rest).moreLetters + 1) + Shown(d, mode, orig[|tags| + k..])
  {
    var rest := orig[|tags|..];
    var k := Consumed(d, rest);
    assert rest[k..] == orig[|tags| + k..];
    assert Trues(1) == [true];
  }

  lemma ShowOne(toShow: seq<Word>, shown: seq<Word>, w: Word, todo: seq<Word>)
    requires toShow == shown + ([w] + todo)
    ensures toShow == (shown + [w]) + todo
  {
  }

  /** The static variables of the parser. */
  class Parser {
    var optind: nat
    var optreset: bool
    var nonoptStart: int
    var nonoptEnd: int
    // letters of the current option word still to be returned (what *place points to)
    var lettersLeft: nat

    // the vector as it was when the scan began, and what became of the words examined since
    ghost var orig: seq<Word>
    ghost var tags: seq<bool>

    /** The state a program starts from. */
    constructor (ghost words: seq<Word>)
      ensures Valid(words) && optind == 1 && !optreset && nonoptStart == -1
      ensures orig == words && tags == Trues(Arith.Min(1, |words|)) && lettersLeft == 0
    {
      optind, optreset, nonoptStart, nonoptEnd, lettersLeft := 1, false, -1, -1, 0;
      orig, tags := words, Trues(Arith.Min(1, |words|));
      new;
      PickTrues(orig[..|tags|]);
    }

    /** The part of the invariant about words: which words lie where. */
    ghost predicate Layout(now: seq<Word>)
      reads this
    {
      |tags| == Arith.Min(optind, |orig|) && LaidOut(orig, tags, nonoptStart, nonoptEnd, now)
    }

    ghost predicate Valid(now: seq<Word>)
      reads this
    {
      && Layout(now)
      && (optind > |now| ==> nonoptStart == -1)
      && (nonoptStart == -1 ==> nonoptEnd == -1)
      && (nonoptStart != -1 && nonoptEnd != -1 ==> nonoptEnd <= optind && (nonoptEnd == optind ==> lettersLeft > 0))
      && (lettersLeft > 0 ==>
            && optind < |now| && (nonoptStart != -1 ==> nonoptEnd != -1)
            && IsOption(now[optind]) && now[optind] != "--")
    }

    /** A scan that has been told to restart, or one under way (where only mode Permute skips). */
    ghost predicate Ready(mode: Mode, now: seq<Word>)
      reads this
    {
      Restarting() || (Valid(now) && (mode.Permute? || nonoptStart == -1))
    }

    function First(): nat
      reads this
    {
      if optind == 0 then 1 else optind
    }

    predicate Restarting()
      reads this
    {
      optind == 0 || optreset
    }

    /** The vector the current scan started from. */
    ghost function Orig(now: seq<Word>): seq<Word>
      reads this
    {
      if Restarting() then now else orig
    }

    /** The tags the words will have got when the scan ends. */
    ghost function Plan(d: Decoder, mode: Mode, now: seq<Word>): (plan: seq<bool>)
      requires Ready(mode, now)
      reads this
      ensures |plan| <= |now|
    {
      if Restarting() then
        var n := Arith.Min(First(), |now|);
        PlanOf(d, mode, now, Trues(n))
      else
        PlanOf(d, mode, orig, tags)
    }

    /** What the caller is still to be shown. */
    ghost function ToShow(d: Decoder, mode: Mode, now: seq<Word>): seq<Word>
      requires Ready(mode, now)
      reads this
    {
      if Restarting() then
        Shown(d, mode, now[Arith.Min(First(), |now|)..])
      else
        ShownFrom(d, mode, now[|tags|..], lettersLeft)
    }

    /** Both blocks of a permutation are non-empty whenever one is due. */
    lemma BlocksAreNonEmpty(now: seq<Word>)
      requires Valid(now) && nonoptEnd != -1 && lettersLeft == 0
      ensures 0 <= nonoptStart < nonoptEnd < optind <= |now|
    {
    }

    /** Moves the skipped words behind the options found after them. */
    method Exchange(argv: array<Word>)
      requires Layout(argv[..])
      requires 0 <= nonoptStart < nonoptEnd < optind <= argv.Length
      modifies argv
      ensures var consumed := Pick(orig[..|tags|], tags, true);
              var skipped := Pick(orig[..|tags|], tags, false);
              && argv[..] == consumed + skipped + orig[|tags|..]
              && |consumed| == optind - (nonoptEnd - nonoptStart)
    {
      hide Pick, Scan, Shown;
      ghost var was := argv[..];
      ghost var consumed := Pick(orig[..|tags|], tags, true);
      ghost var skipped := Pick(orig[..|tags|], tags, false);
      ghost var done := was[..|tags|];
      assert was == done + was[|tags|..];
      assert was[..nonoptStart] == done[..nonoptStart] == consumed[..nonoptStart];
      assert was[nonoptStart..nonoptEnd] == done[nonoptStart..nonoptEnd] == skipped;
      assert was[nonoptEnd..optind] == done[nonoptEnd..] == consumed[nonoptStart..];
      assert consumed == consumed[..nonoptStart] + consumed[nonoptStart..];
      PermuteArgs(nonoptStart, nonoptEnd, optind, argv);
    }

    /** Starts a scan at optind; the words before it count as consumed. */
    ghost method Begin(now: seq<Word>)
      requires nonoptStart == nonoptEnd == -1 && lettersLeft == 0
      modifies this`orig, this`tags
      ensures Valid(now) && orig == now && tags == Trues(Arith.Min(optind, |orig|))
    {
      orig := now;
      tags := Trues(Arith.Min(optind, |orig|));
      PickTrues(orig[..|tags|]);
    }

    /** The vector and optind once a scan with these tags has ended. */
    ghost predicate Finished(ws: seq<Word>, plan: seq<bool>, from: nat, now: seq<Word>)
      requires |plan| <= |ws|
      reads this
    {
      && now == Arranged(ws, plan)
      && (from <= |ws| ==> optind == |Pick(ws[..|plan|], plan, true)|)
    }

    /** While no option follows the skipped words, the words already lie as they will in the end. */
    lemma UnmovedLayout(now: seq<Word>)
      requires Layout(now) && nonoptEnd == -1
      ensures now == Arranged(orig, tags)
      ensures |Pick(orig[..|tags|], tags, true)| == if nonoptStart == -1 then |tags| else nonoptStart
    {
      var consumed := Pick(orig[..|tags|], tags, true);
      assert now == now[..|tags|] + now[|tags|..];
      if nonoptStart != -1 {
        assert consumed[..nonoptStart] == consumed && consumed[nonoptStart..] == [];
      }
    }

    /** Ends a scan: exchanges if options follow skipped words, and leaves optind at the first
        non-option. */
    method Settle(argv: array<Word>)
      requires Layout(argv[..]) && lettersLeft == 0
      requires optind > argv.Length ==> nonoptStart == -1
      requires nonoptStart == -1 ==> nonoptEnd == -1
      requires nonoptEnd != -1 ==> nonoptEnd < optind
      modifies this, argv
      ensures Valid(argv[..]) && nonoptStart == -1 && lettersLeft == 0 && optreset == old(optreset)
      ensures Finished(old(orig), old(tags), old(optind), argv[..])
    {
      hide Pick, Scan, Shown;
      if nonoptEnd != -1 {
        Exchange(argv);
        optind := optind - (nonoptEnd - nonoptStart);
      } else {
        UnmovedLayout(argv[..]);
        if nonoptStart != -1 {
          // we skipped non-options only: optind goes to the first of them
          optind := nonoptStart;
        }
      }
      nonoptStart, nonoptEnd := -1, -1;
      Begin(argv[..]);
    }

    /** Brings the skipped words together at the end of the words examined. */
    method Gather(argv: array<Word>)
      requires Valid(argv[..]) && lettersLeft == 0 && optind < argv.Length
      modifies this`nonoptStart, this`nonoptEnd, argv
      ensures argv[..] == Arranged(orig, tags) && nonoptEnd == -1
      ensures nonoptStart == |Pick(orig[..|tags|], tags, true)|
    {
      hide Pick, Scan, Shown;
      if nonoptEnd == -1 {
        UnmovedLayout(argv[..]);
      }
      if nonoptStart == -1 {
        nonoptStart := optind;
      } else if nonoptEnd != -1 {
        Exchange(argv);
        nonoptStart := optind - (nonoptEnd - nonoptStart);
        nonoptEnd := -1;
      }
    }

    /** A non-option found while permuting: it joins the skipped words. */
    method Skip(argv: array<Word>)
      requires Valid(argv[..]) && lettersLeft == 0 && optind < argv.Length
      modifies this, argv
      ensures Valid(argv[..]) && lettersLeft == 0 && optreset == old(optreset)
      ensures orig == old(orig) && tags == old(tags) + [false] && optind == old(optind) + 1
    {
      hide Pick, Scan, Shown;
      Gather(argv);
      SkipOne(orig, tags, argv[..]);
      tags := tags + [false];
      optind := optind + 1;
    }

    /** The next k words belong to the option at hand. */
    method Consume(ghost now: seq<Word>, k: nat)
      requires Layout(now) && optind + k <= |now| && k > 0
      requires nonoptStart != -1 ==> nonoptEnd != -1
      modifies this`optind, this`tags
      ensures Layout(now) && optind == old(optind) + k && tags == old(tags) + Trues(k)
    {
      hide Pick, Scan, Shown;
      ConsumeMore(orig, tags, k, nonoptStart, nonoptEnd, now);
      tags := tags + Trues(k);
      optind := optind + k;
    }

    /** Applies optreset, which restarts the scan on the vector as it is now. */
    method Restart(argv: array<Word>, ghost d: Decoder, mode: Mode)
      requires Ready(mode, argv[..])
      modifies this
      ensures Valid(argv[..]) && !Restarting() && (mode.Permute? || nonoptStart == -1)
      ensures orig == old(Orig(argv[..])) && PlanOf(d, mode, orig, tags) == old(Plan(d, mode, argv[..]))
      ensures ShownFrom(d, mode, argv[|tags|..], lettersLeft) == old(ToShow(d, mode, argv[..]))
      ensures optind == old(First())
    {
      if optind == 0 {
        optind, optreset := 1, true;
      }
      if optreset {
        nonoptStart, nonoptEnd, lettersLeft := -1, -1, 0;
        Begin(argv[..]);
        optreset := false;
      }
    }

    /** The loop over non-options at the start of getopt_internal; an outcome is returned when the
        call ends there. */
    method ScanNonOptions(argv: array<Word>, ghost d: Decoder, mode: Mode) returns (ended: bool, r: Outcome)
      requires Valid(argv[..]) && lettersLeft == 0 && !Restarting() && (mode.Permute? || nonoptStart == -1)
      modifies this, argv
      ensures Valid(argv[..]) && lettersLeft == 0 && (mode.Permute? || nonoptStart == -1)
      ensures !ended ==>
                && optind < argv.Length && IsOption(argv[optind]) && !Restarting() && orig == old(orig)
                && PlanOf(d, mode, orig, tags) == old(PlanOf(d, mode, orig, tags))
                && Shown(d, mode, orig[|tags|..]) == old(Shown(d, mode, orig[|tags|..]))
      ensures ended && r.Found? ==>
                && !Restarting() && optind <= argv.Length && orig == old(orig)
                && PlanOf(d, mode, orig, tags) == old(PlanOf(d, mode, orig, tags))
                && [r.word] + Shown(d, mode, orig[|tags|..]) == old(Shown(d, mode, orig[|tags|..]))
      ensures ended && r.Done? ==>
                && nonoptStart == -1 && old(Shown(d, mode, orig[|tags|..])) == []
                && Finished(old(orig), old(PlanOf(d, mode, orig, tags)), old(optind), argv[..])
    {
      hide Pick, Scan, Shown;
      r := Done;
      while optind < argv.Length && !IsOption(argv[optind]) && mode.Permute?
        invariant Valid(argv[..]) && lettersLeft == 0 && !Restarting() && orig == old(orig)
        invariant mode.Permute? || (nonoptStart == -1 && optind == old(optind))
        invariant optind > argv.Length ==> optind == old(optind)
        invariant PlanOf(d, mode, orig, tags) == old(PlanOf(d, mode, orig, tags))
        invariant Shown(d, mode, orig[|tags|..]) == old(Shown(d, mode, orig[|tags|..]))
        decreases argv.Length - optind
      {
        assert argv[optind] == argv[..][optind..][0] == orig[optind];
        PlanAfterSkip(d, orig, tags);
        Skip(argv);
      }
      if optind >= argv.Length {
        EndOfVector(argv, d, mode);
        ended := true;
      } else if !IsOption(argv[optind]) {
        r := EndAtNonOption(argv, d, mode);
        ended := true;
      } else {
        ended := false;
      }
    }

    method EndOfVector(argv: array<Word>, ghost d: Decoder, ghost mode: Mode)
      requires Valid(argv[..]) && lettersLeft == 0 && optind >= argv.Length
      modifies this, argv
      ensures Valid(argv[..]) && nonoptStart == -1 && lettersLeft == 0 && optreset == old(optreset)
      ensures old(Shown(d, mode, orig[|tags|..])) == []
      ensures Finished(old(orig), old(PlanOf(d, mode, orig, tags)), old(optind), argv[..])
    {
      assert orig[|tags|..] == [];
      assert PlanOf(d, mode, orig, tags) == tags;
      Settle(argv);
    }

    /** Modes that do not permute return at a non-option. */
    method EndAtNonOption(argv: array<Word>, ghost d: Decoder, mode: Mode) returns (r: Outcome)
      requires Valid(argv[..]) && lettersLeft == 0 && !Restarting() && !mode.Permute? && nonoptStart == -1
      requires optind < argv.Length && !IsOption(argv[optind])
      modifies this
      ensures Valid(argv[..]) && lettersLeft == 0 && nonoptStart == -1
      ensures r.Found? ==>
                && !Restarting() && optind <= argv.Length && orig == old(orig)
                && PlanOf(d, mode, orig, tags) == old(PlanOf(d, mode, orig, tags))
                && [r.word] + Shown(d, mode, orig[|tags|..]) == old(Shown(d, mode, orig[|tags|..]))
      ensures r.Done? ==>
                && old(Shown(d, mode, orig[|tags|..])) == []
                && Finished(old(orig), old(PlanOf(d, mode, orig, tags)), old(optind), argv[..])
    {
      hide Pick;
      assert argv[optind] == argv[..][optind..][0] == orig[optind];
      if mode.ReturnInOrder? {
        r := Found(argv[optind]);
        PlanAfterReport(d, orig, tags);
        Consume(argv[..], 1);
      } else {
        UnmovedLayout(argv[..]);
        assert PlanOf(d, mode, orig, tags) == tags;
        r := Done;
      }
    }

    /** Returns one letter of the option word at optind, and consumes the word with its last one. */
    method ReturnLetter(argv: array<Word>, d: Decoder, mode: Mode) returns (r: Outcome)
      requires Valid(argv[..]) && lettersLeft > 0 && !Restarting() && (mode.Permute? || nonoptStart == -1)
      modifies this`optind, this`lettersLeft, this`tags
      ensures Valid(argv[..]) && !Restarting() && optind <= argv.Length && orig == old(orig)
      ensures mode.Permute? || nonoptStart == -1
      ensures PlanOf(d, mode, orig, tags) == old(PlanOf(d, mode, orig, tags))
      ensures r.Found? && r.word == argv[old(optind)] && lettersLeft == old(lettersLeft) - 1
      ensures optind == if lettersLeft > 0 then old(optind)
                        else Arith.Min(old(optind) + 1 + d(argv[old(optind)..]).separateArgs, argv.Length)
      ensures [r.word] + ShownFrom(d, mode, argv[|tags|..], lettersLeft) ==
              old(ShownFrom(d, mode, argv[|tags|..], lettersLeft))
    {
      hide Pick, Scan, Shown;
      ghost var now, n, letters := argv[..], |tags|, lettersLeft;
      assert argv[n..] == now[n..] == orig[n..];
      r := Found(argv[optind]);
      PlanAfterOption(d, mode, orig, tags);
      RepeatFirst(argv[optind], lettersLeft, Shown(d, mode, now[n..][Consumed(d, now[n..])..]));
      lettersLeft := lettersLeft - 1;
      if lettersLeft == 0 {
        Consume(argv[..], Consumed(d, argv[optind..]));
        assert now[n..][Consumed(d, now[n..])..] == argv[|tags|..];
        assert Repeat(now[n], 0) == [];
      }
    }

    /** An option word at optind: "--" ends the scan, any other word is about to return letters. */
    method StartOption(argv: array<Word>, d: Decoder, mode: Mode) returns (ended: bool)
      requires Valid(argv[..]) && lettersLeft == 0 && !Restarting() && (mode.Permute? || nonoptStart == -1)
      requires optind < argv.Length && IsOption(argv[optind])
      modifies this, argv
      ensures Valid(argv[..]) && (mode.Permute? || nonoptStart == -1)
      ensures !ended ==>
                && lettersLeft > 0 && !Restarting()
                && orig == old(orig) && tags == old(tags) && argv[..] == old(argv[..])
                && ShownFrom(d, mode, argv[|tags|..], lettersLeft) == Shown(d, mode, orig[|tags|..])
                && optind == old(optind) && lettersLeft == d(argv[optind..]).moreLetters + 1
      ensures ended ==>
                && nonoptStart == -1 && lettersLeft == 0 && old(Shown(d, mode, orig[|tags|..])) == []
                && Finished(old(orig), old(PlanOf(d, mode, orig, tags)), old(optind), argv[..])
    {
      hide Pick, Scan, Shown;
      ghost var rest := orig[|tags|..];
      assert argv[|tags|..] == argv[..][|tags|..] == rest;
      PlanAfterOption(d, mode, orig, tags);
      MarkEnd(argv[..]);
      ended := argv[optind] == "--";
      if ended {
        EndAtDashes(argv);
      } else {
        StartLetters(argv, d, mode);
      }
    }

    method StartLetters(argv: array<Word>, d: Decoder, ghost mode: Mode)
      requires Layout(argv[..]) && lettersLeft == 0 && optind < argv.Length
      requires (nonoptStart == -1 <==> nonoptEnd == -1) && nonoptEnd <= optind
      requires IsOption(argv[optind]) && argv[optind] != "--"
      modifies this`lettersLeft
      ensures Valid(argv[..]) && lettersLeft == d(argv[optind..]).moreLetters + 1
      ensures ShownFrom(d, mode, argv[|tags|..], lettersLeft) == Shown(d, mode, orig[|tags|..])
    {
      hide Pick, Scan, Shown;
      assert argv[|tags|..] == argv[..][|tags|..] == orig[|tags|..];
      PlanAfterOption(d, mode, orig, tags);
      lettersLeft := d(argv[optind..]).moreLetters + 1;
      assert orig[|tags|..][Consumed(d, argv[optind..])..] == orig[|tags| + Consumed(d, argv[optind..])..];
    }

    /** "--" counts as consumed and ends the scan. */
    method EndAtDashes(argv: array<Word>)
      requires Layout(argv[..]) && lettersLeft == 0 && !Restarting() && optind < argv.Length
      requires (nonoptStart == -1 <==> nonoptEnd == -1) && nonoptEnd <= optind
      modifies this, argv
      ensures Valid(argv[..]) && nonoptStart == -1 && lettersLeft == 0
      ensures Finished(old(orig), old(tags) + Trues(1), old(optind), argv[..])
    {
      hide Pick, Scan, Shown;
      Consume(argv[..], 1);
      Settle(argv);
    }

    /** Remembers where the skipped words end, now that an option follows them. */
    method MarkEnd(ghost now: seq<Word>)
      requires Valid(now) && optind < |now|
      modifies this`nonoptEnd
      ensures Layout(now) && (nonoptStart == -1 <==> nonoptEnd == -1)
      ensures nonoptStart != -1 ==> nonoptEnd <= optind
    {
      hide Pick, Scan, Shown;
      PickSplits(orig[..|tags|], tags);
      if nonoptStart != -1 && nonoptEnd == -1 {
        nonoptEnd := optind;
      }
    }

    /** getopt_internal once optreset has been dealt with. */
    method Resume(argv: array<Word>, d: Decoder, mode: Mode) returns (r: Outcome)
      requires Valid(argv[..]) && !Restarting() && (mode.Permute? || nonoptStart == -1)
      modifies this, argv
      ensures Valid(argv[..]) && (mode.Permute? || nonoptStart == -1)
      ensures r.Done? ==>
                && old(ShownFrom(d, mode, argv[|tags|..], lettersLeft)) == [] && nonoptStart == -1 && lettersLeft == 0
                && Finished(old(orig), old(PlanOf(d, mode, orig, tags)), old(optind), argv[..])
      ensures r.Found? ==>
                && !Restarting() && optind <= argv.Length && orig == old(orig)
                && PlanOf(d, mode, orig, tags) == old(PlanOf(d, mode, orig, tags))
                && old(ShownFrom(d, mode, argv[|tags|..], lettersLeft)) ==
                   [r.word] + ShownFrom(d, mode, argv[|tags|..], lettersLeft)
    {
      hide Pick, Scan, Shown;
      if lettersLeft == 0 {
        assert argv[|tags|..] == argv[..][|tags|..] == orig[|tags|..];
        var ended;
        ended, r := ScanNonOptions(argv, d, mode);
        assert argv[|tags|..] == argv[..][|tags|..] == orig[|tags|..];
        if ended {
          return;
        }
        ended := StartOption(argv, d, mode);
        if ended {
          return Done;
        }
      }
      r := ReturnLetter(argv, d, mode);
    }

    /** getopt_internal: one call. */
    method Next(argv: array<Word>, d: Decoder, mode: Mode) returns (r: Outcome)
      requires Ready(mode, argv[..])
      modifies this, argv
      ensures Ready(mode, argv[..])
      ensures r.Done? ==>
                && old(ToShow(d, mode, argv[..])) == [] && nonoptStart == -1 && lettersLeft == 0
                && Finished(old(Orig(argv[..])), old(Plan(d, mode, argv[..])), old(First()), argv[..])
      ensures r.Found? ==>
                && !Restarting() && optind <= argv.Length
                && old(ToShow(d, mode, argv[..])) == [r.word] + ToShow(d, mode, argv[..])
                && Orig(argv[..]) == old(Orig(argv[..]))
                && Plan(d, mode, argv[..]) == old(Plan(d, mode, argv[..]))
    {
      hide Pick, Scan, Shown;
      Restart(argv, d, mode);
      r := Resume(argv, d, mode);
    }

    /** A whole run: calls until -1. */
    method Run(argv: array<Word>, d: Decoder, mode: Mode) returns (shown: seq<Word>)
      requires Ready(mode, argv[..])
      modifies this, argv
      ensures Ready(mode, argv[..])
      ensures shown == old(ToShow(d, mode, argv[..]))
      ensures Finished(old(Orig(argv[..])), old(Plan(d, mode, argv[..])), old(First()), argv[..])
    {
      hide Pick, Scan, Shown;
      ghost var ws, plan, toShow := Orig(argv[..]), Plan(d, mode, argv[..]), ToShow(d, mode, argv[..]);
      shown := [];
      var r := Next(argv, d, mode);
      ghost var todo := if r.Found? then ToShow(d, mode, argv[..]) else [];
      while r.Found?
        invariant Ready(mode, argv[..])
        invariant r.Found? ==> !Restarting() && optind <= argv.Length && |ws| == argv.Length
        invariant r.Found? ==> toShow == shown + ([r.word] + todo) && todo == ToShow(d, mode, argv[..])
        invariant r.Found? ==> Orig(argv[..]) == ws && Plan(d, mode, argv[..]) == plan
        invariant r.Done? ==> toShow == shown && Finished(ws, plan, old(First()), argv[..])
        decreases r.Found?, |toShow| - |shown|
      {
        ShowOne(toShow, shown, r.word, todo);
        shown := shown + [r.word];
        r := Next(argv, d, mode);
        todo := if r.Found? then ToShow(d, mode, argv[..]) else [];
      }
    }
  }

  /** getopt_long called until it returns -1, in a program that starts parsing at word 1. */
  method ParseAll(argv: array<Word>, d: Decoder) returns (shown: seq<Word>, optind: nat)
    requires argv.Length >= 1
    modifies argv
    ensures var was := old(argv[..]);
            var tags := [true] + Scan(d, Permute, was[1..]);
            && argv[..] == Arranged(was, tags)
            && optind == |Pick(was[..|tags|], tags, true)|
            && shown == Shown(d, Permute, was[1..])
            && multiset(argv[..]) == multiset(was)
            && (forall k :: 0 <= k < |tags| && !tags[k] ==> !IsOption(was[k]))
  {
    WholeScan(d, argv[..]);
    var p := new Parser(argv[..]);
    shown := p.Run(argv, d, Permute);
    optind := p.optind;
  }

  lemma WholeScan(d: Decoder, was: seq<Word>)
    requires |was| >= 1
    ensures var tags := [true] + Scan(d, Permute, was[1..]);
            && tags == PlanOf(d, Permute, was, Trues(1))
            && multiset(Arranged(was, tags)) == multiset(was)
            && (forall k :: 0 <= k < |tags| && !tags[k] ==> !IsOption(was[k]))
  {
    var tags := [true] + Scan(d, Permute, was[1..]);
    assert Trues(1) == [true];
    ArrangedIsPermutation(was, tags);
    forall k | 0 <= k < |tags| && !tags[k] ensures !IsOption(was[k]) {
      SkippedAreNonOptions(d, Permute, was[1..], k - 1);
    }
  }
}
