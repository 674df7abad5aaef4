/**
 The network strip's catch-up reading (crates/dig-app-core/src/network.rs): how far the chain replica trails
 its peers, as the node's status supports it, and the words and digits it is shown in.
 */
module NetworkBadge {
  import opened Wrappers
  import opened Decimal

  type u32 = n: nat | n <= 0xFFFF_FFFF

  // ---------------------------------------------------------------- digit grouping

  /** Digits in groups of three from the right, a comma between each two. */
  function Grouped(digits: string): string {
    if |digits| <= 3 then digits
    else Grouped(digits[..|digits| - 3]) + "," + digits[|digits| - 3..]
  }

  function WithoutCommas(s: string): string {
    if s == [] then [] else (if s[0] == ',' then [] else [s[0]]) + WithoutCommas(s[1..])
  }

  /** A comma goes before the digit at `position`. */
  predicate OpensGroup(length: nat, position: nat)
    requires position <= length
  {
    position > 0 && (length - position) % 3 == 0
  }

  /** What has been written once the first `n` digits have. */
  function WrittenSoFar(digits: string, n: nat): string
    requires n <= |digits|
  {
    if n == 0 then ""
    else WrittenSoFar(digits, n - 1) + (if OpensGroup(|digits|, n - 1) then "," else "") + [digits[n - 1]]
  }

  lemma {:induction false} WrittenShorter(digits: string, n: nat)
    requires |digits| > 3 && n <= |digits| - 3
    ensures WrittenSoFar(digits, n) == WrittenSoFar(digits[..|digits| - 3], n)
  {
    if n > 0 {
      WrittenShorter(digits, n - 1);
      SameGroup(|digits|, n - 1);
    }
  }

  lemma SameGroup(length: nat, position: nat)
    requires position + 3 <= length
    ensures OpensGroup(length, position) <==> OpensGroup(length - 3, position)
  {
  }

  lemma CommaWritten(digits: string, n: nat)
    requires n < |digits| && OpensGroup(|digits|, n)
    ensures WrittenSoFar(digits, n + 1) == WrittenSoFar(digits, n) + "," + [digits[n]]
  {
  }

  lemma NoCommaWritten(digits: string, n: nat)
    requires n < |digits| && !OpensGroup(|digits|, n)
    ensures WrittenSoFar(digits, n + 1) == WrittenSoFar(digits, n) + [digits[n]]
  {
    assert WrittenSoFar(digits, n) + "" == WrittenSoFar(digits, n);
  }

  /** Writing left to right comes to the same as grouping from the right. */
  lemma {:induction false} WrittenIsGrouped(digits: string)
    ensures WrittenSoFar(digits, |digits|) == Grouped(digits)
    decreases |digits|
  {
    hide WrittenSoFar;
    var n := |digits|;
    if n <= 3 {
      ShortIsWhole(digits, n);
      assert digits[..n] == digits;
    } else {
      WrittenShorter(digits, n - 3);
      WrittenIsGrouped(digits[..n - 3]);
      LastGroup(digits);
    }
  }

  lemma GroupsOfThree(length: nat)
    requires length > 3
    ensures OpensGroup(length, length - 3) && !OpensGroup(length, length - 2) && !OpensGroup(length, length - 1)
  {
  }

  lemma LastGroup(digits: string)
    requires |digits| > 3
    ensures var n := |digits|;
            WrittenSoFar(digits, n) == WrittenSoFar(digits, n - 3) + "," + digits[n - 3..]
  {
    hide WrittenSoFar, OpensGroup;
    var n := |digits|;
    GroupsOfThree(n);
    CommaWritten(digits, n - 3);
    NoCommaWritten(digits, n - 2);
    NoCommaWritten(digits, n - 1);
    Three(WrittenSoFar(digits, n - 3), digits[n - 3], digits[n - 2], digits[n - 1]);
    LastThree(digits);
  }

  lemma Three(front: string, a: char, b: char, c: char)
    ensures front + "," + [a] + [b] + [c] == front + "," + [a, b, c]
  {
  }

  lemma LastThree(digits: string)
    requires |digits| > 3
    ensures digits[|digits| - 3..] == [digits[|digits| - 3], digits[|digits| - 2], digits[|digits| - 1]]
  {
  }

  lemma {:induction false} ShortIsWhole(digits: string, n: nat)
    requires n <= |digits| <= 3
    ensures WrittenSoFar(digits, n) == digits[..n]
  {
    if n > 0 {
      ShortIsWhole(digits, n - 1);
      assert digits[..n] == digits[..n - 1] + [digits[n - 1]];
    }
  }

  method GroupDigits(value: u32) returns (grouped: string)
    ensures grouped == Grouped(Numeral(value))
  {
    var digits := Numeral(value);
    grouped := "";
    for position := 0 to |digits|
      invariant grouped == WrittenSoFar(digits, position)
    {
      if position > 0 && (|digits| - position) % 3 == 0 {
        grouped := grouped + [','];
      }
      grouped := grouped + [digits[position]];
    }
    WrittenIsGrouped(digits);
  }

  lemma {:induction false} WithoutCommasAppend(s: string, t: string)
    ensures WithoutCommas(s + t) == WithoutCommas(s) + WithoutCommas(t)
  {
    if s == [] {
      assert s + t == t;
    } else {
      assert (s + t)[1..] == s[1..] + t;
      WithoutCommasAppend(s[1..], t);
    }
  }

  lemma {:induction false} DigitsHaveNoCommas(s: string)
    requires AllDigits(s)
    ensures WithoutCommas(s) == s
  {
    if s != [] {
      DigitsHaveNoCommas(s[1..]);
    }
  }

  /** A comma stands at exactly every fourth place from the right, none of them in front; the rest are digits. */
  predicate CommasEveryFourth(g: string) {
    && |g| % 4 != 0
    && forall k :: 0 <= k < |g| ==> (g[k] == ',' <==> (|g| - k) % 4 == 0) && (g[k] == ',' || IsDigit(g[k]))
  }

  /**
   Grouping keeps the digits and puts a comma at exactly every fourth place from the right, none of them in
   front.
   */
  lemma {:induction false} GroupedExact(digits: string)
    requires digits != [] && AllDigits(digits)
    ensures WithoutCommas(Grouped(digits)) == digits && CommasEveryFourth(Grouped(digits))
    decreases |digits|
  {
    if |digits| <= 3 {
      DigitsHaveNoCommas(digits);
      NoneYet(digits);
    } else {
      var front, last := digits[..|digits| - 3], digits[|digits| - 3..];
      GroupedExact(front);
      hide Grouped, WithoutCommas, CommasEveryFourth;
      CommaDropped(Grouped(front), last);
      assert front + last == digits;
      GroupAdded(Grouped(front), last);
    }
  }

  lemma CommaDropped(front: string, last: string)
    requires AllDigits(last)
    ensures WithoutCommas(front + "," + last) == WithoutCommas(front) + last
  {
    DigitsHaveNoCommas(last);
    WithoutCommasAppend(front + ",", last);
    WithoutCommasAppend(front, ",");
    assert WithoutCommas(",") == [];
    assert WithoutCommas(front) + [] == WithoutCommas(front);
  }

  lemma NoneYet(digits: string)
    requires 0 < |digits| <= 3 && AllDigits(digits)
    ensures CommasEveryFourth(digits)
  {
  }

  lemma GroupAdded(front: string, last: string)
    requires |last| == 3 && AllDigits(last) && CommasEveryFourth(front)
    ensures CommasEveryFourth(front + "," + last)
  {
    var g := front + "," + last;
    forall k | 0 <= k < |g|
      ensures (g[k] == ',' <==> (|g| - k) % 4 == 0) && (g[k] == ',' || IsDigit(g[k]))
    {
      if k < |front| {
        assert g[k] == front[k] && |g| - k == |front| - k + 4;
      } else if k > |front| {
        assert g[k] == last[k - |front| - 1];
      }
    }
  }

  // ---------------------------------------------------------------- what the node's status supports

  datatype Phase = Syncing | Synced | NotStarted | NoWalletEnrolled | WalletNotUnlocked | Unrecognized(token: string)

  /** The node's answer, as far as the chain replica goes. */
  datatype Status = Status(phase: Phase, peakHeight: Option<u32>, chiaPeerCount: Option<u32>)

  datatype NoProgress = NoPeers | NoHeight | NeverStarted

  datatype ChainSync =
    | SyncedAt(peak: u32) | SyncingAt(peak: u32) | IdleAt(peak: u32)
    | Stuck(why: NoProgress) | Pending | Unknown(reason: string)
  {
    function PeakHeight(): Option<u32> {
      match this
      case SyncedAt(peak) => Some(peak)
      case SyncingAt(peak) => Some(peak)
      case IdleAt(peak) => Some(peak)
      case _ => None
    }
  }

  function OfStatus(status: Status): ChainSync {
    match (status.phase, status.peakHeight)
    case (Unrecognized(token), _) => Unknown(token)
    case (Synced, Some(peak)) => SyncedAt(peak)
    case (NoWalletEnrolled, Some(peak)) => SyncedAt(peak)
    case (NotStarted, Some(peak)) => IdleAt(peak)
    case (NotStarted, None) => Stuck(NeverStarted)
    case (WalletNotUnlocked, Some(peak)) => IdleAt(peak)
    case (WalletNotUnlocked, None) => Stuck(NeverStarted)
    case (_, Some(peak)) => SyncingAt(peak)
    case (_, None) => if status.chiaPeerCount == Some(0) then Stuck(NoPeers) else Stuck(NoHeight)
  }

  /** What each answer of the node's is read as: the phase decides, and the height if there is one. */
  lemma SyncExactly(status: Status, peak: u32, token: string)
    ensures OfStatus(status) == Unknown(token) <==> status.phase == Unrecognized(token)
    ensures OfStatus(status) == SyncedAt(peak) <==> status.phase in {Synced, NoWalletEnrolled} && status.peakHeight == Some(peak)
    ensures OfStatus(status) == IdleAt(peak) <==> status.phase in {NotStarted, WalletNotUnlocked} && status.peakHeight == Some(peak)
    ensures OfStatus(status) == SyncingAt(peak) <==> status.phase == Syncing && status.peakHeight == Some(peak)
    ensures OfStatus(status) == Stuck(NeverStarted) <==>
            status.phase in {NotStarted, WalletNotUnlocked} && status.peakHeight == None
    ensures OfStatus(status) == Stuck(NoPeers) <==>
            && status.phase in {Syncing, Synced, NoWalletEnrolled} && status.peakHeight == None
            && status.chiaPeerCount == Some(0)
    ensures OfStatus(status) == Stuck(NoHeight) <==>
            && status.phase in {Syncing, Synced, NoWalletEnrolled} && status.peakHeight == None
            && status.chiaPeerCount != Some(0)
  {
  }

  datatype NetworkStanding = NetworkStanding(sync: ChainSync, chiaPeerPeak: Option<u32>, watchedAddresses: Option<u32>)

  datatype Progress = Behind(blocks: u32) | CaughtUp | NothingToSync | CannotTell

  function ProgressOf(standing: NetworkStanding): Progress {
    match standing.watchedAddresses
    case Some(watched) =>
      if watched == 0 then NothingToSync
      else (
        match (standing.sync.PeakHeight(), standing.chiaPeerPeak)
        case (Some(replica), Some(peers)) => if peers <= replica then CaughtUp else Behind(peers - replica)
        case _ => CannotTell
      )
    case None => CannotTell
  }

  // ---------------------------------------------------------------- the badge

  datatype Tone = Good | Neutral | Warn

  const CAUGHT_UP: string := "Caught up"
  const NOTHING_TO_SYNC: string := "Nothing to sync"

  function BlocksBehind(blocks: u32): string {
    if blocks == 1 then "1 block" else Grouped(Numeral(blocks)) + " blocks"
  }

  function CatchUpBadge(standing: NetworkStanding): Option<(string, Tone)> {
    match ProgressOf(standing)
    case CannotTell => None
    case NothingToSync => Some((NOTHING_TO_SYNC, Neutral))
    case CaughtUp => Some((CAUGHT_UP, Good))
    case Behind(blocks) => Some((BlocksBehind(blocks), Neutral))
  }

  predicate HasDigit(s: string) {
    exists i :: 0 <= i < |s| && IsDigit(s[i])
  }

  /** A distance is shown: an address is watched, both heights are known, and the replica is strictly behind. */
  predicate Trails(standing: NetworkStanding) {
    && standing.watchedAddresses.Some? && standing.watchedAddresses.value >= 1
    && standing.sync.PeakHeight().Some? && standing.chiaPeerPeak.Some?
    && standing.sync.PeakHeight().value < standing.chiaPeerPeak.value
  }

  /** The number a badge starts with, up to its first space. */
  function LeadingNumber(s: string): string {
    if s == [] || s[0] == ' ' then [] else [s[0]] + LeadingNumber(s[1..])
  }

  lemma {:induction false} LeadingOf(number: string, rest: string)
    requires ' ' !in number && rest != [] && rest[0] == ' '
    ensures LeadingNumber(number + rest) == number
  {
    if number == [] {
      assert number + rest == rest;
    } else {
      assert (number + rest)[1..] == number[1..] + rest;
      LeadingOf(number[1..], rest);
    }
  }

  lemma StartsWithDigit(number: string, rest: string)
    requires number != "" && CommasEveryFourth(number)
    ensures IsDigit(number[0]) && ' ' !in number && HasDigit(number + rest)
  {
    assert (number + rest)[0] == number[0];
  }

  lemma OneBlock()
    ensures Grouped(Numeral(1)) + " block" == "1 block"
  {
    assert Numeral(1) == [DigitChar(1)] == "1";
  }

  /** A distance is worded by its number, in groups, and the number reads back as the distance. */
  lemma DistanceReadsBack(blocks: u32)
    ensures var text := BlocksBehind(blocks);
            && HasDigit(text)
            && Value(WithoutCommas(LeadingNumber(text))) == blocks
            && LeadingNumber(text) == Grouped(Numeral(blocks))
            && text == LeadingNumber(text) + if blocks == 1 then " block" else " blocks"
  {
    hide Value, WithoutCommas, LeadingNumber, Grouped, Numeral, HasDigit, CommasEveryFourth;
    var number := Grouped(Numeral(blocks));
    GroupedExact(Numeral(blocks));
    NothingGrouped();
    ValueOfNumeral(blocks);
    OneBlock();
    var rest := if blocks == 1 then " block" else " blocks";
    StartsWithDigit(number, rest);
    LeadingOf(number, rest);
  }

  lemma NothingGrouped()
    ensures WithoutCommas("") == ""
  {
  }

  lemma WordsHaveNoDigits()
    ensures !HasDigit(CAUGHT_UP) && !HasDigit(NOTHING_TO_SYNC)
  {
  }

  /** The badge carries digits exactly when a distance is due, and then they are that distance. */
  lemma BadgeIsTheDistance(standing: NetworkStanding)
    ensures CatchUpBadge(standing).Some? && HasDigit(CatchUpBadge(standing).value.0) <==> Trails(standing)
    ensures Trails(standing) ==>
              var distance := standing.chiaPeerPeak.value - standing.sync.PeakHeight().value;
              && WithoutCommas(LeadingNumber(CatchUpBadge(standing).value.0)) == Numeral(distance)
              && CatchUpBadge(standing) == Some((BlocksBehind(distance), Neutral))
  {
    hide HasDigit, LeadingNumber, WithoutCommas, Grouped, Numeral, BlocksBehind;
    WordsHaveNoDigits();
    match ProgressOf(standing) {
      case Behind(blocks) =>
        DistanceReadsBack(blocks);
        GroupedExact(Numeral(blocks));
      case _ =>
    }
  }

  /** The replica's height is the one the node gave, whatever the phase, unless the phase is not understood. */
  lemma HeightIsTheNodes(status: Status)
    ensures OfStatus(status).PeakHeight() == if status.phase.Unrecognized? then None else status.peakHeight
  {
  }

  /** From the wire to the badge: when a distance is shown for a node's answer. */
  lemma DistanceShownExactly(status: Status, peers: Option<u32>, watched: Option<u32>)
    ensures var badge := CatchUpBadge(NetworkStanding(OfStatus(status), peers, watched));
            && (badge.Some? && HasDigit(badge.value.0) <==>
                  && !status.phase.Unrecognized? && watched.Some? && watched.value >= 1
                  && status.peakHeight.Some? && peers.Some? && status.peakHeight.value < peers.value)
            && (badge.None? <==>
                  || watched.None?
                  || (watched.value >= 1 && (status.phase.Unrecognized? || status.peakHeight.None? || peers.None?)))
            && (badge == Some(("Nothing to sync", Neutral)) <==> watched == Some(0))
            && (badge == Some(("Caught up", Good)) <==>
                  && !status.phase.Unrecognized? && watched.Some? && watched.value >= 1
                  && status.peakHeight.Some? && peers.Some? && status.peakHeight.value >= peers.value)
  {
    hide HasDigit, BlocksBehind, LeadingNumber, WithoutCommas;
    var standing := NetworkStanding(OfStatus(status), peers, watched);
    BadgeIsTheDistance(standing);
    WordsHaveNoDigits();
    HeightIsTheNodes(status);
    if ProgressOf(standing).Behind? {
      DistanceReadsBack(ProgressOf(standing).blocks);
    }
  }
}
