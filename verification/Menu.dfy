/** The boot menu: selection, scroll window and countdown. */
module Menu {
  import opened Bytes

  const VISIBLE: int := 18

  datatype Key = NoKey | Up | Down | Home | End | PgUp | PgDn | Enter | Esc | RebootKey | ShutdownKey | Other(code: int)

  datatype Action = Stay | BootSelected | RebootNow | PowerOff

  datatype Window = Window(sel: int, top: int)

  function LastTop(count: int): int {
    if count > VISIBLE then count - VISIBLE else 0
  }

  /** The highlighted entry exists and is drawn, and the list is not scrolled past its end. */
  predicate Shows(w: Window, count: int) {
    0 <= w.sel < count && w.top <= w.sel < w.top + VISIBLE && 0 <= w.top <= LastTop(count)
  }

  function ActionOf(key: Key): Action {
    match key
    case Enter => BootSelected
    case Esc => RebootNow
    case RebootKey => RebootNow
    case ShutdownKey => PowerOff
    case _ => Stay
  }

  /** Where a key moves the selection: one step around the ring, or a page up to the ends. */
  function Selected(key: Key, sel: int, count: int): (s: int)
    requires 0 <= sel < count
    ensures 0 <= s < count
  {
    match key
    case Up => if sel == 0 then count - 1 else sel - 1
    case Down => if sel == count - 1 then 0 else sel + 1
    case Home => 0
    case End => count - 1
    case PgUp => if sel < VISIBLE then 0 else sel - VISIBLE
    case PgDn => Min(sel + VISIBLE, count - 1)
    case _ => sel
  }

  function Distance(a: int, b: int): int {
    if a < b then b - a else a - b
  }

  /** `w'` shows its selection after the least possible scrolling from `top`. */
  ghost predicate ScrollsLeast(top: int, w': Window, count: int) {
    forall t :: Shows(Window(w'.sel, t), count) ==> Distance(top, w'.top) <= Distance(top, t)
  }

  function ScrolledTop(s: int, top: int): int {
    if s < top then s else if s >= top + VISIBLE then s - VISIBLE + 1 else top
  }

  function Clamped(top: int, count: int): int {
    if top < 0 then 0 else Min(top, LastTop(count))
  }

  class Cursor {
    var sel: int
    var top: int

    function View(): Window
      reads this
    {
      Window(sel, top)
    }

    constructor ()
      ensures View() == Window(0, 0)
    {
      sel, top := 0, 0;
    }

    method HandleKey(key: Key, count: int) returns (action: Action)
      requires Shows(View(), count)
      modifies this
      ensures action == ActionOf(key) && View() == Next(key, old(View()), count) && Shows(View(), count)
    {
      match key {
        case Up =>
          sel := sel - 1;
          if sel < 0 {
            sel := count - 1;
          }
        case Down =>
          sel := sel + 1;
          if sel >= count {
            sel := 0;
          }
        case Home =>
          sel := 0;
        case End =>
          sel := count - 1;
        case PgUp =>
          sel := sel - VISIBLE;
          if sel < 0 {
            sel := 0;
          }
        case PgDn =>
          sel := sel + VISIBLE;
          if sel >= count {
            sel := count - 1;
          }
        case Enter =>
          return BootSelected;
        case Esc =>
          return RebootNow;
        case RebootKey =>
          return RebootNow;
        case ShutdownKey =>
          return PowerOff;
        case _ =>
          return Stay;
      }
      Scroll(count);
      action := Stay;
    }

    /** The tail of the key handler: from any `top`, five guarded assignments scroll as little as
        possible inside the list. */
    method Scroll(count: int)
      requires 0 <= sel < count
      modifies `top
      ensures top == Clamped(ScrolledTop(sel, old(top)), count) && Shows(View(), count)
    {
      if sel < top {
        top := sel;
      }
      if sel >= top + VISIBLE {
        top := sel - VISIBLE + 1;
      }
      if top < 0 {
        top := 0;
      }
      if top > count - VISIBLE {
        top := count - VISIBLE;
      }
      if top < 0 {
        top := 0;
      }
    }
  }

  // ---- any sequence of keys ---------------------------------------------------------------------

  /** The window after one key. */
  function Next(key: Key, w: Window, count: int): (w': Window)
    requires Shows(w, count)
    ensures Shows(w', count)
  {
    var s := Selected(key, w.sel, count);
    Window(s, ScrolledTop(s, w.top))
  }

  function After(keys: seq<Key>, w: Window, count: int): (w': Window)
    requires Shows(w, count)
    ensures Shows(w', count)
  {
    if |keys| == 0 then w else After(keys[1..], Next(keys[0], w, count), count)
  }

  /** The window keeps its shape after any keys, and each key scrolls it as little as it can. */
  lemma {:induction false} WindowKept(keys: seq<Key>, key: Key, w: Window, count: int)
    requires Shows(w, count)
    ensures var v := After(keys, w, count); After(keys + [key], w, count) == Next(key, v, count)
    ensures var v := After(keys, w, count); ScrollsLeast(v.top, After(keys + [key], w, count), count)
  {
    hide Selected;
    if |keys| == 0 {
      assert keys + [key] == [key] && [key][1..] == [];
    } else {
      assert (keys + [key])[1..] == keys[1..] + [key];
      WindowKept(keys[1..], key, Next(keys[0], w, count), count);
    }
  }

  /** Whatever was pressed before, `n` presses of Down move the selection `n` places around the ring. */
  lemma {:induction false} DownsGoRound(n: nat, w: Window, count: int)
    requires Shows(w, count)
    ensures After(seq(n, _ => Down), w, count).sel == (w.sel + n) % count
  {
    hide Shows;
    assert 0 <= w.sel < count by { SelectionExists(w, count); }
    if n > 0 {
      assert seq(n, _ => Down)[1..] == seq(n - 1, _ => Down);
      DownsGoRound(n - 1, Next(Down, w, count), count);
      RingPeriod(n - 1, count);
    } else {
      RingValue(0, w.sel, count);
    }
  }

  lemma SelectionExists(w: Window, count: int)
    requires Shows(w, count)
    ensures 0 <= w.sel < count
  {
  }

  lemma RingPeriod(y: nat, m: int)
    requires m > 0
    ensures (m + y) % m == y % m
  {
    var q, r := y / m, y % m;
    assert m + y == (q + 1) * m + r;
    RingValue(q + 1, r, m);
  }

  lemma RingValue(q: nat, r: nat, m: int)
    requires r < m
    ensures (q * m + r) % m == r
  {
    var x := q * m + r;
    var q', r' := x / m, x % m;
    assert x == q' * m + r' && 0 <= r' < m;
    SameQuotient(q, r, q', r', m);
  }

  lemma SameQuotient(q: int, r: int, q': int, r': int, m: int)
    requires q * m + r == q' * m + r' && 0 <= r < m && 0 <= r' < m
    ensures r == r'
  {
    if q < q' {
      Multiples(q, q', m);
    } else if q' < q {
      Multiples(q', q, m);
    }
  }

  lemma {:induction false} Multiples(a: int, b: int, m: int)
    requires a < b && m > 0
    ensures a * m + m <= b * m
    decreases b - a
  {
    assert b * m == (b - 1) * m + m;
    if a < b - 1 {
      Multiples(a, b - 1, m);
    }
  }

  /** Up undoes Down and Down undoes Up. */
  lemma UpUndoesDown(w: Window, count: int)
    requires Shows(w, count)
    ensures Next(Up, Next(Down, w, count), count).sel == w.sel
    ensures Next(Down, Next(Up, w, count), count).sel == w.sel
  {
  }

  lemma {:induction false} UpsGoBack(n: nat, w: Window, count: int)
    requires Shows(w, count) && n <= w.sel
    ensures After(seq(n, _ => Up), w, count).sel == w.sel - n
  {
    if n > 0 {
      assert seq(n, _ => Up)[1..] == seq(n - 1, _ => Up);
      UpsGoBack(n - 1, Next(Up, w, count), count);
    }
  }

  /** As many presses of Down as there are entries below move the selection that far and no further round. */
  lemma DownsGoDown(n: nat, w: Window, count: int)
    requires Shows(w, count) && w.sel + n < count
    ensures After(seq(n, _ => Down), w, count).sel == w.sel + n
  {
    hide Selected, Shows, After;
    SelectionExists(w, count);
    DownsGoRound(n, w, count);
    RingValue(0, w.sel + n, count);
  }

  /** Home and End go to the first and the last entry: one step past either end is the other. */
  lemma EndsOfTheList(w: Window, count: int)
    requires Shows(w, count)
    ensures Next(Home, w, count).sel == 0 && Next(Up, Next(Home, w, count), count).sel == count - 1
    ensures Next(End, w, count).sel == count - 1 && Next(Down, Next(End, w, count), count).sel == 0
  {
    hide ScrolledTop;
  }

  /** Every jump is so many single steps, none of them round the ring: all of those there are for Home and End,
      at most a screenful of 18 for the page keys. */
  lemma JumpsAreSteps(w: Window, count: int)
    requires Shows(w, count)
    ensures Next(Home, w, count).sel == After(seq(w.sel, _ => Up), w, count).sel
    ensures Next(End, w, count).sel == After(seq(count - 1 - w.sel, _ => Down), w, count).sel
    ensures Next(PgUp, w, count).sel == After(seq(Min(18, w.sel), _ => Up), w, count).sel
    ensures Next(PgDn, w, count).sel == After(seq(Min(18, count - 1 - w.sel), _ => Down), w, count).sel
  {
    hide ScrolledTop, After;
    UpsGoBack(w.sel, w, count);
    DownsGoDown(count - 1 - w.sel, w, count);
    UpsGoBack(Min(18, w.sel), w, count);
    DownsGoDown(Min(18, count - 1 - w.sel), w, count);
  }

  /** Any other key leaves selection and window alone. */
  lemma OtherKeysStay(key: Key, w: Window, count: int)
    requires Shows(w, count) && key !in {Up, Down, Home, End, PgUp, PgDn}
    ensures Next(key, w, count) == w
  {
  }

  // ---- the countdown -----------------------------------------------------------------------------

  /** One pass of the menu loop: the key polled, and the true time in seconds when the clock is read. */
  datatype Poll = Poll(key: Key, time: int)

  function ClockSeconds(time: int): int {
    time % 60
  }

  function TimeBefore(start: int, polls: seq<Poll>, k: nat): int
    requires k <= |polls|
  {
    if k == 0 then start else polls[k - 1].time
  }

  /** Seconds the countdown has counted by the end of pass `k`: each gap as seen modulo a minute. */
  function Counted(start: int, polls: seq<Poll>, k: nat): (c: nat)
    requires k <= |polls|
  {
    if k == 0 then 0 else Counted(start, polls, k - 1) + (polls[k - 1].time - TimeBefore(start, polls, k - 1)) % 60
  }

  predicate NeverBackwards(start: int, polls: seq<Poll>) {
    forall k :: 0 <= k < |polls| ==> TimeBefore(start, polls, k) <= polls[k].time
  }

  /** Less than a minute between reads of the clock. */
  predicate Frequent(start: int, polls: seq<Poll>) {
    forall k :: 0 <= k < |polls| ==> polls[k].time - TimeBefore(start, polls, k) < 60
  }

  /** The countdown never runs ahead of the clock. */
  lemma {:induction false} NeverCountsTooMuch(start: int, polls: seq<Poll>, k: nat)
    requires NeverBackwards(start, polls) && k <= |polls|
    ensures Counted(start, polls, k) <= TimeBefore(start, polls, k) - start
  {
    if k > 0 {
      NeverCountsTooMuch(start, polls, k - 1);
    }
  }

  /** The countdown is exact at every poll, across any number of minutes, if and only if the clock
      is read at least once a minute. */
  lemma ExactIffFrequent(start: int, polls: seq<Poll>)
    requires NeverBackwards(start, polls)
    ensures (forall k :: 0 <= k <= |polls| ==> Counted(start, polls, k) == TimeBefore(start, polls, k) - start)
      <==> Frequent(start, polls)
  {
    if Frequent(start, polls) {
      forall k | 0 <= k <= |polls| ensures Counted(start, polls, k) == TimeBefore(start, polls, k) - start {
        ExactWhenFrequent(start, polls, k);
      }
    } else {
      var k :| 0 <= k < |polls| && polls[k].time - TimeBefore(start, polls, k) >= 60;
      NeverCountsTooMuch(start, polls, k);
      assert Counted(start, polls, k + 1) < TimeBefore(start, polls, k + 1) - start;
    }
  }

  lemma {:induction false} ExactWhenFrequent(start: int, polls: seq<Poll>, k: nat)
    requires NeverBackwards(start, polls) && Frequent(start, polls) && k <= |polls|
    ensures Counted(start, polls, k) == TimeBefore(start, polls, k) - start
  {
    hide TimeBefore;
    if k > 0 {
      ExactWhenFrequent(start, polls, k - 1);
      PollTime(start, polls, k);
      SmallGap(TimeBefore(start, polls, k) - TimeBefore(start, polls, k - 1));
    } else {
      FirstTime(start, polls);
    }
  }

  lemma FirstTime(start: int, polls: seq<Poll>)
    ensures TimeBefore(start, polls, 0) == start
  {
  }

  lemma PollTime(start: int, polls: seq<Poll>, k: nat)
    requires 0 < k <= |polls|
    ensures TimeBefore(start, polls, k) == polls[k - 1].time
  {
  }

  lemma SmallGap(x: int)
    ensures 0 <= x < 60 ==> x % 60 == x
  {
  }

  const REBOOT: int := -1
  const SHUTDOWN: int := -2

  /** What pass `k` returns, given the window its key left: the key first, then the timeout. */
  function PassReturns(count: int, timeout: int, start: int, polls: seq<Poll>, k: nat, w: Window): Option<int>
    requires k < |polls|
  {
    match ActionOf(polls[k].key)
    case BootSelected => Some(w.sel)
    case RebootNow => Some(REBOOT)
    case PowerOff => Some(SHUTDOWN)
    case Stay => if timeout > 0 && Counted(start, polls, k + 1) >= timeout then Some(0) else None
  }

  /** The menu's answer from pass `k` on; none if it is still open after the last poll. */
  function Answer(count: int, timeout: int, start: int, polls: seq<Poll>, k: nat, w: Window): Option<int>
    requires k <= |polls| && Shows(w, count)
    decreases |polls| - k
  {
    if k == |polls| then None
    else
      var w' := Next(polls[k].key, w, count);
      if PassReturns(count, timeout, start, polls, k, w').Some? then PassReturns(count, timeout, start, polls, k, w')
      else Answer(count, timeout, start, polls, k + 1, w')
  }

  lemma {:induction false} AnswerInRange(count: int, timeout: int, start: int, polls: seq<Poll>, k: nat, w: Window)
    requires k <= |polls| && Shows(w, count)
    ensures var a := Answer(count, timeout, start, polls, k, w);
      a.Some? ==> a.value in {REBOOT, SHUTDOWN} || 0 <= a.value < count
    decreases |polls| - k
  {
    hide Selected, ScrolledTop, Counted;
    if k < |polls| {
      AnswerInRange(count, timeout, start, polls, k + 1, Next(polls[k].key, w, count));
    }
  }

  /** With no entries only Esc or the reboot key answers. */
  function EmptyAnswer(polls: seq<Poll>, k: nat): Option<int>
    requires k <= |polls|
    decreases |polls| - k
  {
    if k == |polls| then None
    else if polls[k].key == Esc || polls[k].key == RebootKey then Some(REBOOT)
    else EmptyAnswer(polls, k + 1)
  }

  /** `menu_run` on a finite run of the endless loop; `remaining` is what the screen shows. */
  method Run(count: int, timeout: int, start: int, polls: seq<Poll>) returns (answer: Option<int>, remaining: int,
        ghost passes: nat)
    ensures count <= 0 ==> answer == EmptyAnswer(polls, 0)
    ensures count > 0 ==> answer == Answer(count, timeout, start, polls, 0, Window(0, 0))
    ensures passes <= |polls| && (answer.None? ==> passes == |polls|)
    ensures count > 0 && timeout > 0 && answer.None? ==> remaining == timeout - Counted(start, polls, |polls|) > 0
  {
    hide Selected, Next, Shows, ClockSeconds;
    if count > 0 {
      StartShows(count);
    }
    answer := None;
    var cursor := new Cursor();
    var lastSec := ClockSeconds(start);
    remaining := timeout;
    passes := 0;
    for k := 0 to |polls|
      invariant passes == k
      invariant count <= 0 ==> EmptyAnswer(polls, 0) == EmptyAnswer(polls, k)
      invariant count > 0 ==> Shows(cursor.View(), count)
      invariant count > 0 ==>
        Answer(count, timeout, start, polls, 0, Window(0, 0)) == Answer(count, timeout, start, polls, k, cursor.View())
      invariant count > 0 && timeout > 0 ==> remaining == timeout - Counted(start, polls, k) > 0
      invariant count > 0 && timeout > 0 ==> lastSec == ClockSeconds(TimeBefore(start, polls, k))
    {
      if count <= 0 {
        if polls[k].key == Esc || polls[k].key == RebootKey {
          return Some(REBOOT), remaining, k;
        }
        passes := k + 1;
        continue;
      }
      var key := polls[k].key;
      if key != NoKey {
        var action := cursor.HandleKey(key, count);
        match action {
          case BootSelected => return Some(cursor.sel), remaining, k;
          case RebootNow => return Some(REBOOT), remaining, k;
          case PowerOff => return Some(SHUTDOWN), remaining, k;
          case Stay =>
        }
      } else {
        NoKeyStays(cursor.View(), count);
      }
      if timeout > 0 {
        var now := ClockSeconds(polls[k].time);
        GapSeen(TimeBefore(start, polls, k), polls[k].time);
        if now != lastSec {
          var delta := if now >= lastSec then now - lastSec else now + 60 - lastSec;
          remaining := remaining - delta;
          lastSec := now;
          if remaining <= 0 {
            return Some(0), remaining, k;
          }
        }
      }
      passes := k + 1;
    }
  }

  lemma NoKeyStays(w: Window, count: int)
    requires Shows(w, count)
    ensures Next(NoKey, w, count) == w
  {
  }

  lemma StartShows(count: int)
    requires count > 0
    ensures Shows(Window(0, 0), count)
  {
  }

  /** The two-case subtraction of sampled seconds is the gap modulo a minute. */
  lemma GapSeen(before: int, now: int)
    ensures var a, b := ClockSeconds(before), ClockSeconds(now);
      (now - before) % 60 == if a == b then 0 else if b >= a then b - a else b + 60 - a
  {
  }

  function Keys(polls: seq<Poll>): (ks: seq<Key>)
    ensures |ks| == |polls|
  {
    seq(|polls|, k requires 0 <= k < |polls| => polls[k].key)
  }

  /** Nothing ends the menu at this poll: no deciding key, and the timeout has not truly elapsed. */
  predicate KeepsOpen(timeout: int, start: int, p: Poll) {
    ActionOf(p.key) == Stay && (timeout > 0 ==> p.time - start < timeout)
  }

  predicate KeptOpen(timeout: int, start: int, polls: seq<Poll>, k: nat, n: nat)
    requires n <= |polls|
  {
    forall j :: k <= j < n ==> KeepsOpen(timeout, start, polls[j])
  }

  lemma {:induction false} StaysOpen(count: int, timeout: int, start: int, polls: seq<Poll>, k: nat, n: nat, w: Window)
    requires Shows(w, count) && NeverBackwards(start, polls) && Frequent(start, polls)
    requires k <= n <= |polls| && KeptOpen(timeout, start, polls, k, n)
    ensures Answer(count, timeout, start, polls, k, w)
         == Answer(count, timeout, start, polls, n, After(Keys(polls[k..n]), w, count))
    decreases n - k
  {
    hide Selected, ScrolledTop, Shows, Counted;
    if k < n {
      assert KeepsOpen(timeout, start, polls[k]);
      ExactWhenFrequent(start, polls, k + 1);
      StaysOpen(count, timeout, start, polls, k + 1, n, Next(polls[k].key, w, count));
      assert Keys(polls[k..n])[1..] == Keys(polls[k + 1..n]);
    }
  }

  /** What the menu returns at a poll that ends it: the key decides, else entry 0. */
  function EndsWith(key: Key, sel: int): int {
    match ActionOf(key)
    case BootSelected => sel
    case RebootNow => REBOOT
    case PowerOff => SHUTDOWN
    case Stay => 0
  }

  /** On a well-behaved clock the menu ends at the first poll with a deciding key, or at which the
      timeout has truly elapsed, and at no other; a key at that poll comes first. */
  lemma EndsExactly(count: int, timeout: int, start: int, polls: seq<Poll>, n: nat)
    requires count > 0 && NeverBackwards(start, polls) && Frequent(start, polls)
    requires n <= |polls| && KeptOpen(timeout, start, polls, 0, n)
    requires (n < |polls| ==> !KeepsOpen(timeout, start, polls[n]))
    ensures Shows(Window(0, 0), count)
    ensures Answer(count, timeout, start, polls, 0, Window(0, 0))
         == if n == |polls| then None
            else Some(EndsWith(polls[n].key, After(Keys(polls[..n]), Window(0, 0), count).sel))
  {
    hide ScrolledTop, Counted;
    StaysOpen(count, timeout, start, polls, 0, n, Window(0, 0));
    assert polls[0..n] == polls[..n];
    if n < |polls| {
      ExactWhenFrequent(start, polls, n + 1);
    }
  }

  /** Four keys decide and no other: Enter boots, Esc and the reboot key reboot, the shutdown key powers off. */
  lemma FourKeysDecide(timeout: int, start: int, p: Poll)
    ensures KeepsOpen(timeout, start, p) <==>
      p.key !in {Enter, Esc, RebootKey, ShutdownKey} && (timeout > 0 ==> p.time - start < timeout)
  {
  }

  /** On a well-behaved clock the deciding key fixes the answer: the selected entry, -1 to reboot, -2 to power
      off; with no such key it is entry 0. */
  lemma KeyDecides(count: int, timeout: int, start: int, polls: seq<Poll>, n: nat)
    requires count > 0 && NeverBackwards(start, polls) && Frequent(start, polls)
    requires n < |polls| && KeptOpen(timeout, start, polls, 0, n) && !KeepsOpen(timeout, start, polls[n])
    ensures Shows(Window(0, 0), count)
    ensures var a, key := Answer(count, timeout, start, polls, 0, Window(0, 0)), polls[n].key;
      && (key == Enter ==> a == Some(After(Keys(polls[..n]), Window(0, 0), count).sel))
      && (key in {Esc, RebootKey} ==> a == Some(-1))
      && (key == ShutdownKey ==> a == Some(-2))
      && (key !in {Enter, Esc, RebootKey, ShutdownKey} ==> a == Some(0))
  {
    hide Answer, After, KeptOpen, Frequent, NeverBackwards;
    EndsExactly(count, timeout, start, polls, n);
  }

  /** What Enter boots right after a key, from where the selection was before that key. */
  lemma EnterBoots(count: int, timeout: int, start: int, polls: seq<Poll>, n: nat)
    requires count > 0 && NeverBackwards(start, polls) && Frequent(start, polls)
    requires 0 < n < |polls| && KeptOpen(timeout, start, polls, 0, n) && polls[n].key == Enter
    ensures Shows(Window(0, 0), count)
    ensures var sel, key := After(Keys(polls[..n - 1]), Window(0, 0), count).sel, polls[n - 1].key;
      Answer(count, timeout, start, polls, 0, Window(0, 0)) == Some(
        if key == Home then 0
        else if key == End then count - 1
        else if key == PgUp then (if sel < 18 then 0 else sel - 18)
        else if key == PgDn then Min(sel + 18, count - 1)
        else if key == Up then (if sel == 0 then count - 1 else sel - 1)
        else if key == Down then (if sel == count - 1 then 0 else sel + 1)
        else sel)
  {
    hide Answer, After, KeptOpen, Frequent, NeverBackwards, ScrolledTop, Keys;
    StartShows(count);
    FourKeysDecide(timeout, start, polls[n]);
    KeyDecides(count, timeout, start, polls, n);
    KeysSnoc(polls, n - 1);
    var before := Keys(polls[..n - 1]);
    WindowKept(before, polls[n - 1].key, Window(0, 0), count);
    JumpsAreSteps(After(before, Window(0, 0), count), count);
  }

  lemma KeysSnoc(polls: seq<Poll>, k: nat)
    requires k < |polls|
    ensures Keys(polls[..k + 1]) == Keys(polls[..k]) + [polls[k].key]
  {
  }

  /** With nothing to boot the menu ends exactly when Esc or the reboot key is pressed, and reboots. */
  lemma {:induction false} EmptyEndsExactly(polls: seq<Poll>, k: nat)
    requires k <= |polls|
    ensures EmptyAnswer(polls, k)
         == if exists j :: k <= j < |polls| && polls[j].key in {Esc, RebootKey} then Some(-1) else None
    decreases |polls| - k
  {
    if k < |polls| {
      EmptyEndsExactly(polls, k + 1);
    }
  }
}
