/** The promotion rotator of the home page: four slides, the index of the one
    shown, the interval timer that advances it, the dots that mark it, and the
    dot clicks that jump to a slide. The timers themselves are outside the
    model; the id `setInterval` hands back arrives as a parameter. */
module HomeSlides {
  import opened Wrappers

  datatype Slide = Slide(img: string, href: string, alt: string, title: string)

  const SLIDES: seq<Slide> := [
    Slide("https://ninjastorage.blob.core.windows.net/companyfiles/205623498/a6add642-72ad-4590-a7b4-693a837973c7.png",
          "best.html", "베스트 상품", "Best Product"),
    Slide("https://ninjastorage.blob.core.windows.net/companyfiles/205623498/adfcee20-baad-444b-b1c2-83fd9ce9ff17.png",
          "event.html", "이벤트", "Event"),
    Slide("https://i.pinimg.com/736x/80/bf/e5/80bfe5b09623565cc3a1d0d5bdd4964c.jpg",
          "Gallery.html", "갤러리", "Gallery"),
    Slide("https://i.pinimg.com/736x/f1/98/53/f19853a799aae2a5725a337fb9d4c9a3.jpg",
          "store.html", "스토어", "Store")
  ]

  /** The number of slides. The remainders below divide by the literal 4,
      so that they stay linear arithmetic for the verifier. */
  const LEN: nat := 4

  /** The id `setInterval` hands back: a positive integer, so a set timer is truthy. */
  type TimerId = x: int | x > 0 witness 1

  /** JavaScript's `%` by the number of slides: the remainder takes the sign
      of the dividend. */
  function JsMod(a: int): (r: int)
    ensures a >= 0 ==> 0 <= r < LEN && r == a % 4
    ensures a < 0 ==> -(LEN as int) < r <= 0 && (r - a) % 4 == 0
  {
    if a >= 0 then a % 4 else -((-a) % 4)
  }

  /** The index after `next`. */
  function NextIdx(i: int): int {
    JsMod(i + 1)
  }

  /** The index after `go(i)`. */
  function GoIdx(i: int): int {
    JsMod(i + LEN)
  }

  /** The `aria-selected` values of the dots: true exactly at `idx`. */
  function DotsFor(idx: int): (r: seq<bool>)
    ensures |r| == LEN
    ensures forall i | 0 <= i < LEN :: r[i] <==> i == idx
  {
    seq(LEN, i requires 0 <= i < LEN => i == idx)
  }

  /** The indices of the marked dots. */
  function Marked(dots: seq<bool>): set<int> {
    set i | 0 <= i < |dots| && dots[i]
  }

  // ---------------------------------------------------------------- indices

  /** `next` keeps an index in range and moves it one slide on, wrapping
      from the last slide to the first. */
  lemma NextInRange(i: int)
    requires 0 <= i < LEN
    ensures 0 <= NextIdx(i) < LEN
    ensures NextIdx(i) == if i == LEN - 1 then 0 else i + 1
  {
  }

  /** The index after `k` steps of `next`. */
  function NextN(i: int, k: nat): int {
    if k == 0 then i else NextIdx(NextN(i, k - 1))
  }

  /** From an index in range, `k` steps of `next` advance it by `k` modulo
      the number of slides. */
  lemma {:induction false} NextNAdvances(i: int, k: nat)
    requires 0 <= i < LEN
    ensures NextN(i, k) == (i + k) % 4
  {
    if k > 0 {
      NextNAdvances(i, k - 1);
      var m := NextN(i, k - 1);
      NextInRange(m);
      assert NextN(i, k) == NextIdx(m);
      ModStep(i + k - 1);
    }
  }

  lemma ModStep(a: nat)
    ensures (a + 1) % 4 == if a % 4 == LEN - 1 then 0 else a % 4 + 1
  {
    var q, m := a / 4, a % 4;
    assert a == 4 * q + m;
    if m == 3 {
      assert a + 1 == 4 * (q + 1);
    } else {
      assert a + 1 == 4 * q + (m + 1);
    }
  }

  /** After as many steps as there are slides the rotator is back where it was. */
  lemma RotationCycles(i: int)
    requires 0 <= i < LEN
    ensures NextN(i, LEN) == i
  {
    NextNAdvances(i, LEN);
    ModShift(i);
  }

  /** ... and not before. */
  lemma NoEarlierReturn(i: int, k: nat)
    requires 0 <= i < LEN && 0 < k < LEN
    ensures NextN(i, k) != i
  {
    NextNAdvances(i, k);
    if i + k < 4 {
      ModSmall(i + k);
    } else {
      ModShift(i + k - 4);
    }
  }

  lemma ModSmall(a: nat)
    requires a < 4
    ensures a % 4 == a
  {
    assert a == 4 * 0 + a;
  }

  lemma ModShift(a: nat)
    requires a < 4
    ensures (a + 4) % 4 == a
  {
    assert a + 4 == 4 * 1 + a;
  }

  /** `go(i)` lands in range for every `i` from minus the number of slides
      on, and on slide `i` itself for an index in range. */
  lemma GoInRange(i: int)
    requires i >= -(LEN as int)
    ensures 0 <= GoIdx(i) < LEN
    ensures 0 <= i < LEN ==> GoIdx(i) == i
  {
  }

  /** Further below the index stays negative unless it is a multiple of the
      length, and then no dot is marked. */
  lemma GoBelowRange(i: int)
    requires i < -(LEN as int) && (i + LEN as int) % 4 != 0
    ensures GoIdx(i) < 0
    ensures Marked(DotsFor(GoIdx(i))) == {}
  {
  }

  /** For an index in range exactly one dot is marked, the one at the index. */
  lemma OneDotMarked(idx: int)
    requires 0 <= idx < LEN
    ensures Marked(DotsFor(idx)) == {idx}
  {
  }

  // ---------------------------------------------------------------- the rotator

  class Rotator {
    var idx: int
    /** The id of the running interval timer; none when stopped. */
    var timer: Option<TimerId>
    /** The `aria-selected` values of the dots. */
    var dots: seq<bool>
    /** The slide the link, image and title show; none before the first render. */
    var shown: Option<Slide>

    /** The page as it loads: slide 0 rendered and the timer started with `id`. */
    constructor (id: TimerId)
      ensures idx == 0 && timer == Some(id)
      ensures dots == DotsFor(0) && shown == Some(SLIDES[0])
    {
      idx := 0;
      timer := None;
      dots := [];
      shown := None;
      new;
      Render();
      Start(id);
    }

    /** `render`: marks the dot at the index and shows its slide. When the
        index is out of range no dot is marked and the deferred update of the
        link, image and title fails, so they keep what they showed. */
    method Render()
      modifies this
      ensures dots == DotsFor(idx)
      ensures shown == (if 0 <= idx < LEN then Some(SLIDES[idx]) else old(shown))
      ensures idx == old(idx) && timer == old(timer)
    {
      if 0 <= idx < LEN {
        shown := Some(SLIDES[idx]);
      }
      dots := DotsFor(idx);
    }

    /** `next`: one slide on, then render. */
    method Next()
      modifies this
      ensures idx == NextIdx(old(idx)) && timer == old(timer)
      ensures dots == DotsFor(idx)
      ensures 0 <= old(idx) < LEN ==> 0 <= idx < LEN && shown == Some(SLIDES[idx])
    {
      idx := JsMod(idx + 1);
      Render();
    }

    /** `go(i, user)`: to slide `(i + length) % length`, render, and restart
        the timer (with `id`) when a user asked. */
    method Go(i: int, user: bool, id: TimerId)
      modifies this
      ensures idx == GoIdx(i) && dots == DotsFor(idx)
      ensures 0 <= idx < LEN ==> shown == Some(SLIDES[idx])
      ensures timer == if user then Some(id) else old(timer)
    {
      idx := JsMod(i + LEN);
      Render();
      if user {
        Restart(id);
      }
    }

    /** `start`: a running timer is kept; otherwise one is started with `id`. */
    method Start(id: TimerId)
      modifies this
      ensures timer == if old(timer).Some? then old(timer) else Some(id)
      ensures idx == old(idx) && dots == old(dots) && shown == old(shown)
    {
      if timer.Some? {
        return;
      }
      timer := Some(id);
    }

    /** `stop`: the timer is cleared. */
    method Stop()
      modifies this
      ensures timer == None
      ensures idx == old(idx) && dots == old(dots) && shown == old(shown)
    {
      timer := None;
    }

    /** `restart`: stop, then start with `id`. */
    method Restart(id: TimerId)
      modifies this
      ensures timer == Some(id)
      ensures idx == old(idx) && dots == old(dots) && shown == old(shown)
    {
      Stop();
      Start(id);
    }
  }
}
