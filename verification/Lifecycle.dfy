/**
  The states of the processes and what they wait for (lab5/cow/proc.c), as a value: each
  transition of fork, exit, wait and kill keeps every process sound, so that no wakeup of a
  waiting parent is ever lost.
 */
module Lifecycle {
  import opened Family

  datatype Life = Life(pid: nat, state: ProcState, waits: bool, resume: Resume)

  type Lives = map<Proc, Life>

  function LifeOf(p: Proc): Life
    reads p`pid, p`state, p`waitsForChild, p`resume
  {
    Life(p.pid, p.state, p.waitsForChild, p.resume)
  }

  ghost function LivesOf(all: set<Proc>): (lives: Lives)
    reads all`pid, all`state, all`waitsForChild, all`resume
    ensures lives.Keys == all
  {
    map p | p in all :: LifeOf(p)
  }

  /** A wait for pid, or for any child if pid is 0, may return this one. */
  predicate Matches(l: Life, pid: int) {
    pid == 0 || l.pid == pid
  }

  /** The state of p fits what it waits for: it sleeps exactly when it waits for a child,
      some child matches, and no matching child is a zombie. A zombie has no children. */
  ghost predicate Sound(lives: Lives, kids: Kids, p: Proc) {
    && p in lives && p in kids && Members(kids[p]) <= lives.Keys
    && var l, ks := lives[p], kids[p];
    && !l.state.Uninit?
    && (l.state == Zombie ==> ks == [])
    && (l.waits <==> l.state == Sleeping)
    && (l.state == Sleeping ==>
          && l.resume.Waiting?
          && (exists k :: k in ks && Matches(lives[k], l.resume.pid))
          && (forall k :: k in ks && Matches(lives[k], l.resume.pid) ==> lives[k].state != Zombie))
  }

  ghost predicate AllSound(lives: Lives, kids: Kids) {
    kids.Keys == lives.Keys && forall p :: p in lives ==> Sound(lives, kids, p)
  }

  lemma AllSoundAt(lives: Lives, kids: Kids, p: Proc)
    requires AllSound(lives, kids) && p in lives
    ensures Sound(lives, kids, p)
  {
  }

  /** z is the youngest zombie among the children ks. */
  ghost predicate YoungestDead(ks: seq<Proc>, lives: Lives, z: Proc) {
    exists n :: 0 <= n < |ks| && ks[n] == z && Dead(lives, z) && forall i :: 0 <= i < n ==> !Dead(lives, ks[i])
  }

  predicate Dead(lives: Lives, p: Proc) {
    p in lives && lives[p].state == Zombie
  }

  /** Where p is on the list, counted from 1, or 0 if it is not there. */
  function Place(list: seq<Proc>, p: Proc): (i: nat)
    ensures i <= |list| && (i == 0 <==> p !in list) && (i > 0 ==> list[i - 1] == p)
  {
    if list == [] then 0
    else if list[0] == p then 1
    else
      var i := Place(list[1..], p); if i == 0 then 0 else i + 1
  }

  /** The list as schedule goes through it: from behind the current process on, around to that
      process itself. */
  function Order(list: seq<Proc>, cur: Proc): (o: seq<Proc>)
    ensures |o| == |list|
  {
    var i := Place(list, cur);
    list[i..] + list[..i]
  }

  lemma OrderMembers(list: seq<Proc>, cur: Proc, q: Proc)
    ensures q in Order(list, cur) <==> q in list
  {
    var i := Place(list, cur);
    assert list == list[..i] + list[i..];
  }

  /** The first runnable process, or idleproc. */
  function FirstRunnable(order: seq<Proc>, lives: Lives, idle: Proc): (next: Proc)
    ensures (next in order && next in lives && lives[next].state == Runnable)
            || (next == idle && forall q :: q in order && q in lives ==> lives[q].state != Runnable)
  {
    if order == [] then idle
    else if order[0] in lives && lives[order[0]].state == Runnable then order[0]
    else FirstRunnable(order[1..], lives, idle)
  }

  lemma FirstRunnableAt(order: seq<Proc>, lives: Lives, idle: Proc, k: nat)
    requires k <= |order|
    ensures k == |order| ==> FirstRunnable(order[k..], lives, idle) == idle
    ensures k < |order| && order[k] in lives ==>
              FirstRunnable(order[k..], lives, idle)
              == if lives[order[k]].state == Runnable then order[k] else FirstRunnable(order[k + 1..], lives, idle)
  {
    if k < |order| { assert order[k..][1..] == order[k + 1..]; }
  }

  lemma OrderFits(list: seq<Proc>, cur: Proc)
    ensures Place(list, cur) <= |list| == |Order(list, cur)|
    ensures cur !in list ==> Place(list, cur) == 0
  {
  }

  /** The order begins right behind cur and goes around. */
  lemma OrderAt(list: seq<Proc>, cur: Proc, k: nat)
    requires k < |list|
    ensures var last := Place(list, cur);
            Order(list, cur)[k] == if last + k < |list| then list[last + k] else list[last + k - |list|]
  {
  }

  /** Whom schedule chooses after cur. */
  function Elected(list: seq<Proc>, lives: Lives, cur: Proc, idle: Proc): (next: Proc) {
    FirstRunnable(Order(list, cur), lives, idle)
  }

  /** k lies strictly between i and j on the way forward from i, around the end if need be. */
  predicate Between(i: int, k: int, j: int) {
    if i < j then i < k < j else k > i || k < j
  }

  predicate Runs(lives: Lives, p: Proc) {
    p in lives && lives[p].state == Runnable
  }

  /** next is the first who can run behind cur; cur itself comes last, and idle only if there is
      nobody.  A cur that is not on the list stands before its first element. */
  ghost predicate NextInLine(list: seq<Proc>, lives: Lives, cur: Proc, next: Proc, idle: Proc) {
    || (next == idle && forall k :: 0 <= k < |list| ==> !Runs(lives, list[k]))
    || exists j :: 0 <= j < |list| && list[j] == next && Runs(lives, next) && NoneBetween(list, lives, cur, j)
  }

  ghost predicate NoneBetween(list: seq<Proc>, lives: Lives, cur: Proc, j: int) {
    && (forall i, k :: 0 <= i < |list| && list[i] == cur && 0 <= k < |list| && Between(i, k, j) ==>
          !Runs(lives, list[k]))
    && (cur !in list ==> forall k :: 0 <= k < j < |list| ==> !Runs(lives, list[k]))
  }

  lemma {:induction false} FirstIsFirst(order: seq<Proc>, lives: Lives, idle: Proc) returns (m: nat)
    ensures m <= |order| && forall k :: 0 <= k < m ==> !Runs(lives, order[k])
    ensures if m == |order| then FirstRunnable(order, lives, idle) == idle
            else Runs(lives, order[m]) && FirstRunnable(order, lives, idle) == order[m]
  {
    if order == [] {
      m := 0;
    } else if Runs(lives, order[0]) {
      m := 0;
    } else {
      var n := FirstIsFirst(order[1..], lives, idle);
      m := n + 1;
      forall k | 0 <= k < m ensures !Runs(lives, order[k]) {
        if k > 0 { assert order[1..][k - 1] == order[k]; }
      }
    }
  }

  /** Where list position k stands in the order, and that the order is no longer than the list. */
  lemma PlaceInOrder(list: seq<Proc>, cur: Proc, k: nat) returns (m: nat)
    requires k < |list|
    ensures m < |list| == |Order(list, cur)| && Order(list, cur)[m] == list[k]
    ensures m == if k < Place(list, cur) then k + |list| - Place(list, cur) else k - Place(list, cur)
  {
    hide Place;
    OrderFits(list, cur);
    var last := Place(list, cur);
    m := if k < last then k + |list| - last else k - last;
    OrderAt(list, cur, m);
  }

  /** The round robin passes nobody over. */
  lemma ElectedIsNext(list: seq<Proc>, lives: Lives, cur: Proc, idle: Proc)
    requires forall i, j :: 0 <= i < j < |list| ==> list[i] != list[j]
    ensures NextInLine(list, lives, cur, Elected(list, lives, cur, idle), idle)
  {
    hide FirstRunnable, Order;
    var order, last := Order(list, cur), Place(list, cur);
    OrderFits(list, cur);
    var m := FirstIsFirst(order, lives, idle);
    forall k | 0 <= k < |list| && Runs(lives, list[k])
      ensures m <= if k < last then k + |list| - last else k - last
      ensures m < |list|
    {
      var n := PlaceInOrder(list, cur, k);
    }
    if m < |list| {
      OrderAt(list, cur, m);
      var j := if last + m < |list| then last + m else last + m - |list|;
      assert list[j] == order[m];
      assert NoneBetween(list, lives, cur, j);
    }
  }

  /** The life of a process after a wakeup meant for those who wait for a child. */
  function Woken(l: Life): Life {
    if l.waits then l.(state := Runnable, waits := false) else l
  }

  ghost function Joined(kids: Kids, p: Proc, cur: Proc): Kids
    requires cur in kids
  {
    kids[p := []][cur := [p] + kids[cur]]
  }

  lemma ForkSound(lives: Lives, kids: Kids, p: Proc, cur: Proc, l: Life)
    requires AllSound(lives, kids) && p !in lives && cur in lives && lives[cur].state == Runnable
    requires l.state == Runnable && !l.waits
    ensures AllSound(lives[p := l], Joined(kids, p, cur))
  {
    var lives2, kids2 := lives[p := l], Joined(kids, p, cur);
    assert Sound(lives, kids, cur);
    forall q | q in lives2 ensures Sound(lives2, kids2, q) {
      assert q != p ==> Sound(lives, kids, q);
    }
  }

  /** Waking a sleeping process is always sound: it will look again. */
  lemma WakeSound(lives: Lives, kids: Kids, p: Proc)
    requires AllSound(lives, kids) && p in lives
    ensures AllSound(lives[p := Woken(lives[p])], kids)
  {
    var lives2 := lives[p := Woken(lives[p])];
    assert Sound(lives, kids, p);
    forall q | q in lives2 ensures Sound(lives2, kids, q) {
      assert Sound(lives, kids, q);
    }
  }

  /** p is a zombie and the parent it had is awake. */
  ghost function Died(lives: Lives, p: Proc, dad: Proc): Lives
    requires p in lives && dad in lives
  {
    lives[p := lives[p].(state := Zombie)][dad := Woken(lives[dad])]
  }

  /** boss is woken if one of the children ks that come to it is a zombie. */
  ghost function Alerted(lives: Lives, ks: seq<Proc>, boss: Proc): Lives
    requires boss in lives && Members(ks) <= lives.Keys
  {
    if exists k :: k in ks && lives[k].state == Zombie then lives[boss := Woken(lives[boss])] else lives
  }

  /** The lives after p's exit. */
  ghost function Bereft(lives: Lives, p: Proc, dad: Proc?, orphans: seq<Proc>, boss: Proc): Lives {
    if dad != null && {p, dad, boss} + Members(orphans) <= lives.Keys
    then Alerted(Died(lives, p, dad), orphans, boss) else lives
  }

  /** p has gone to sleep until a child that pid matches exits. */
  ghost function Dozing(lives: Lives, p: Proc, pid: int): Lives {
    if p in lives then lives[p := Life(lives[p].pid, Sleeping, true, Waiting(pid))] else lives
  }

  /** p has been woken if it waited. */
  ghost function Waking(lives: Lives, p: Proc): Lives {
    if p in lives then lives[p := Woken(lives[p])] else lives
  }

  /** p is back in its program. */
  ghost function TakingUp(lives: Lives, p: Proc): Lives {
    if p in lives then lives[p := lives[p].(resume := Program)] else lives
  }

  /** Everybody else stays sound: only the parent had p among its children. */
  lemma DeathSound(lives: Lives, kids: Kids, p: Proc, dad: Proc, q: Proc)
    requires AllSound(lives, kids) && p in lives && dad in lives && p != dad && q in lives && q != p
    requires q != dad ==> p !in kids[q]
    ensures Sound(Died(lives, p, dad), kids, q)
  {
    assert Sound(lives, kids, q);
  }

  lemma ExitSound(lives: Lives, kids: Kids, p: Proc, dad: Proc, boss: Proc)
    requires AllSound(lives, kids) && p in lives && dad in lives && boss in lives && p != dad && p != boss
    requires lives[p].state == Runnable && lives[boss].state != Zombie
    requires forall q :: q in kids && q != dad ==> p !in kids[q]
    ensures Members(kids[p]) <= lives.Keys
    ensures AllSound(Alerted(Died(lives, p, dad), kids[p], boss), Adopted(kids, p, boss))
  {
    assert Sound(lives, kids, p);
    var died := Died(lives, p, dad);
    var lives2, kids2 := Alerted(died, kids[p], boss), Adopted(kids, p, boss);
    forall q | q in lives2 ensures Sound(lives2, kids2, q) {
      if q != p {
        DeathSound(lives, kids, p, dad, q);
        if q == boss {
          HeirSound(died, kids, p, boss);
        }
      }
    }
  }

  lemma HeirSound(died: Lives, kids: Kids, p: Proc, boss: Proc)
    requires p in kids && Members(kids[p]) <= died.Keys && Sound(died, kids, boss) && p != boss
    requires died[boss].state != Zombie
    ensures Sound(Alerted(died, kids[p], boss), Adopted(kids, p, boss), boss)
  {
    var lives2, both := Alerted(died, kids[p], boss), Onto(kids[p], kids[boss]);
    forall k: Proc ensures k in both <==> k in kids[p] || k in kids[boss] {
      assert k in both <==> k in Members(both);
    }
    if lives2[boss].state == Sleeping {
      var k: Proc :| k in kids[boss] && Matches(died[k], died[boss].resume.pid);
      assert k in both && Matches(lives2[k], lives2[boss].resume.pid);
    }
  }

  lemma SleepSound(lives: Lives, kids: Kids, cur: Proc, pid: int)
    requires AllSound(lives, kids) && cur in lives && lives[cur].state == Runnable
    requires exists k :: k in kids[cur] && Matches(lives[k], pid)
    requires forall k :: k in kids[cur] && Matches(lives[k], pid) ==> lives[k].state != Zombie
    requires cur !in kids[cur]
    ensures AllSound(Dozing(lives, cur, pid), kids)
  {
    var lives2 := Dozing(lives, cur, pid);
    assert Sound(lives, kids, cur);
    forall q | q in lives2 ensures Sound(lives2, kids, q) {
      assert Sound(lives, kids, q);
    }
  }

  lemma TakenUpSound(lives: Lives, kids: Kids, p: Proc)
    requires AllSound(lives, kids) && p in lives && lives[p].state != Sleeping
    ensures AllSound(TakingUp(lives, p), kids)
  {
    var lives2 := TakingUp(lives, p);
    forall q | q in lives2 ensures Sound(lives2, kids, q) {
      assert Sound(lives, kids, q);
    }
  }

  ghost function Without(kids: Kids, z: Proc, dad: Proc, i: nat): Kids
    requires dad in kids && i < |kids[dad]|
  {
    (kids - {z})[dad := kids[dad][..i] + kids[dad][i + 1..]]
  }

  lemma ReapSound(lives: Lives, kids: Kids, z: Proc, dad: Proc, i: nat)
    requires AllSound(lives, kids) && z in lives && dad in lives && z != dad && lives[dad].state == Runnable
    requires i < |kids[dad]| && kids[dad][i] == z && forall j :: 0 <= j < |kids[dad]| && j != i ==> kids[dad][j] != z
    requires forall q :: q in kids && q != dad ==> z !in kids[q]
    ensures AllSound(lives - {z}, Without(kids, z, dad, i))
  {
    var lives2, kids2 := lives - {z}, Without(kids, z, dad, i);
    forall q | q in lives2 ensures Sound(lives2, kids2, q) {
      assert Sound(lives, kids, q);
    }
  }
}
