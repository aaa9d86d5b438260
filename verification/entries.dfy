/** Prayer requests, journal entries, the compose form that creates them, and
    the split of prayers between the feed and the answered wall. */
module Entries {

  /** Ids are JavaScript numbers: the seed data uses small positive integers
      and new entries take the current time in milliseconds. */
  type Id = int

  /** The categories the compose form offers; `Other` is its default. */
  datatype Category = Health | Family | Work | Gratitude | Spiritual | Other

  datatype Prayer = Prayer(
    id: Id, author: string, category: Category, text: string, time: string, day: int,
    prayerCount: nat, prayerMinutes: nat, isMine: bool, answered: bool, anon: bool)

  datatype JournalEntry = JournalEntry(
    id: Id, text: string, category: Category, created: string, answered: bool)

  /** What the compose form hands to the submit handler. */
  datatype Form = Form(text: string, category: Category, namePrivate: bool, isJournal: bool)

  /** The author shown for a new request: anonymous when the user keeps
      their name private. */
  function AuthorFor(namePrivate: bool): string {
    if namePrivate then "A Church Member" else "You"
  }

  /** The prayer request a feed-mode form posts, under id `id`. */
  function NewPrayer(f: Form, id: Id): (p: Prayer)
    ensures p.id == id && p.text == f.text && p.category == f.category
    ensures p.isMine && !p.answered && p.prayerCount == 0 && p.prayerMinutes == 0
    ensures p.anon == f.namePrivate
    ensures p.author == (if f.namePrivate then "A Church Member" else "You")
    ensures p.time == "Just now" && p.day == 1
  {
    Prayer(id, AuthorFor(f.namePrivate), f.category, f.text, "Just now", 1, 0, 0, true, false, f.namePrivate)
  }

  /** The journal entry a journal-mode form adds, under id `id`. */
  function NewJournalEntry(f: Form, id: Id): (e: JournalEntry)
    ensures e.id == id && e.text == f.text && e.category == f.category && !e.answered
    ensures e.created == "Just now"
  {
    JournalEntry(id, f.text, f.category, "Just now", false)
  }

  /** The prayers whose `answered` flag equals `answered`, in list order. */
  function Select(ps: seq<Prayer>, answered: bool): (r: seq<Prayer>)
    ensures |r| <= |ps|
    ensures forall p :: p in r <==> p in ps && p.answered == answered
  {
    if ps == [] then []
    else if ps[0].answered == answered then [ps[0]] + Select(ps[1..], answered)
    else Select(ps[1..], answered)
  }

  /** Selecting keeps list order: the selection of a concatenation is the
      concatenation of the selections. */
  lemma {:induction false} SelectAppend(xs: seq<Prayer>, ys: seq<Prayer>, answered: bool)
    ensures Select(xs + ys, answered) == Select(xs, answered) + Select(ys, answered)
    decreases |xs|
  {
    if xs == [] {
      assert xs + ys == ys;
    } else {
      assert (xs + ys)[0] == xs[0];
      assert (xs + ys)[1..] == xs[1..] + ys;
      SelectAppend(xs[1..], ys, answered);
    }
  }

  /** The feed: prayers not yet answered. */
  function Feed(ps: seq<Prayer>): (r: seq<Prayer>)
    ensures forall p :: p in r <==> p in ps && !p.answered
  {
    Select(ps, false)
  }

  /** The wall: answered prayers. */
  function Wall(ps: seq<Prayer>): (r: seq<Prayer>)
    ensures forall p :: p in r <==> p in ps && p.answered
  {
    Select(ps, true)
  }

  /** Feed and wall split the prayer list: each prayer shows on exactly one of
      them, and together they hold every prayer as many times as the list. */
  lemma {:induction false} FeedWallPartition(ps: seq<Prayer>)
    ensures forall p :: p in ps ==> (p in Feed(ps) <==> p !in Wall(ps))
    ensures multiset(Feed(ps)) + multiset(Wall(ps)) == multiset(ps)
    ensures |Feed(ps)| + |Wall(ps)| == |ps|
  {
    if ps != [] {
      FeedWallPartition(ps[1..]);
      assert ps == [ps[0]] + ps[1..];
    }
  }

  /** Putting a prayer at the head of the list puts it at the head of the one
      view it belongs to and leaves the other view as it was. */
  lemma PrependSelect(p: Prayer, ps: seq<Prayer>)
    ensures Feed([p] + ps) == if p.answered then Feed(ps) else [p] + Feed(ps)
    ensures Wall([p] + ps) == if p.answered then [p] + Wall(ps) else Wall(ps)
  {
  }
}
