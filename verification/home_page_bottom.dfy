/** `HomePageBottom`: a banner that cycles through four fixed messages, one step per fade-out. */
module HomePageBottom {
  import Cyclic
  import JsMath

  const Messages: seq<string> := [
    "Custom Web Solutions",
    "High-Performance & Scalable Development",
    "User-Centric & Engaging Interfaces",
    "SEO & Web Optimization"
  ]

  /** `index` starts at 0. */
  const InitialIndex := 0

  /** The fade-out's completion handler: `(prevIndex + 1) % messages.length`. */
  function Step(index: int): (r: int)
    ensures 0 <= index < |Messages| ==> 0 <= r < |Messages|
    ensures 0 <= index < |Messages| - 1 ==> r == index + 1
    ensures index == |Messages| - 1 ==> r == 0
  {
    Cyclic.Succ(index, |Messages|)
  }

  /** The index after `k` completed fades from the first render. */
  function IndexAfter(k: nat): int
    decreases k
  {
    if k == 0 then InitialIndex else Step(IndexAfter(k - 1))
  }

  /** The banner text: `messages[index]`. */
  function Banner(index: int): (m: string)
    requires 0 <= index < |Messages|
    ensures m in Messages
  {
    Messages[index]
  }

  /** After `k` fades the index is `k mod 4`, so it is always a valid position and the banner
      always has a message to show. */
  lemma IndexAfterIsModular(k: nat)
    ensures IndexAfter(k) == k % |Messages|
    ensures 0 <= IndexAfter(k) < |Messages|
  {
  }

  /** The rotator is the shared modular counter started at 0. */
  lemma {:induction false} SameAsCounter(k: nat)
    ensures IndexAfter(k) == Cyclic.SuccN(InitialIndex, |Messages|, k)
    decreases k
  {
    if k > 0 {
      SameAsCounter(k - 1);
    }
  }

  /** The messages come round again every four fades. */
  lemma Periodic(k: nat)
    ensures IndexAfter(k + |Messages|) == IndexAfter(k)
  {
    IndexAfterIsModular(k);
    IndexAfterIsModular(k + |Messages|);
    JsMath.ModUnique(k + |Messages|, |Messages|, (k / |Messages|) + 1, k % |Messages|);
  }

  /** The first five banners read: solutions, performance, interfaces, optimisation, solutions. */
  lemma FirstBanners()
    ensures IndexAfter(1) == 1 && IndexAfter(2) == 2 && IndexAfter(3) == 3 && IndexAfter(4) == 0
    ensures Banner(IndexAfter(4)) == Banner(InitialIndex) == "Custom Web Solutions"
  {
  }
}
