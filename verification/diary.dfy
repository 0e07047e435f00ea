/**
 * The diary's operations as single steps over the store: adding an entry,
 * the list and detail views, search, the two deletions, and the main menu's
 * key dispatch. Each step returns the new store, the screen control moves
 * to, and the confirmation line it prints.
 */
module Diary {
  import opened Wrappers
  import opened Entries
  import Text
  import Numbers
  import ListScreen

  /** The states of the menu loop; the main menu is where every other state returns. */
  datatype Screen =
    | MainMenu
    | ListView(shown: seq<Entry>)
    | DetailView(entry: Entry)
    | Exited

  /** The confirmation line a step prints, if any. */
  datatype Notice = Silent | Saved | Deleted | ResultsFound(count: nat)

  datatype Step = Step(store: Store, next: Screen, notice: Notice)

  // ---------------------------------------------------------------- add

  /**
   * `add_entry`: `text` is everything typed before end of input, `answer`
   * the reply to `Save entry? [Yn]` (never asked when the text is blank),
   * `now` the clock reading `Entry.create` stamps.
   */
  function AddEntry(s: Store, text: string, answer: string, now: Timestamp): (r: Step)
    ensures r.next == MainMenu
    ensures Text.AllSpace(text) ==> r == Step(s, MainMenu, Silent)
    ensures Text.IsKey(answer, 'n') ==> r == Step(s, MainMenu, Silent)
    ensures !Text.AllSpace(text) && !Text.IsKey(answer, 'n') ==>
      && r.notice == Saved
      && |r.store| == |s| + 1
      && r.store[..|s|] == s
      && r.store[|s|].content == Text.Strip(text)
      && r.store[|s|].content != []
      && !Text.IsSpace(r.store[|s|].content[0])
      && !Text.IsSpace(r.store[|s|].content[|r.store[|s|].content| - 1])
      && r.store[|s|].ts == now
      && (forall i :: 0 <= i < |s| ==> s[i].id < r.store[|s|].id)
  {
    var data := Text.Strip(text);
    if data == [] then Step(s, MainMenu, Silent)
    else if Text.IsKey(answer, 'n') then Step(s, MainMenu, Silent)
    else Step(Create(s, data, now), MainMenu, Saved)
  }

  // ---------------------------------------------------------------- list view

  /** `view_entries()` from the menu: the list of all entries, or nothing when there are none. */
  function ViewEntries(s: Store): (r: Step)
    ensures r.store == s && r.notice == Silent
    ensures r.next == MainMenu || r.next.ListView?
    ensures r.next.ListView? <==> 0 < |s|
    ensures r.next.ListView? ==> |r.next.shown| == |s| && forall e :: e in r.next.shown <==> e in s
  {
    if |s| == 0 then Step(s, MainMenu, Silent) else Step(s, ListView(Listing(s)), Silent)
  }

  /** What the list view shows of a valid store: every entry once, newest first. */
  lemma ViewEntriesNewestFirst(s: Store)
    requires Valid(s) && 0 < |s|
    ensures NewestFirst(ViewEntries(s).next.shown)
  {
    ListingNewestFirst(s);
  }

  /** The selection prompt under the list: a valid number opens that entry, anything else returns to the menu. */
  function ListStep(s: Store, shown: seq<Entry>, answer: string): (r: Step)
    ensures r.store == s && r.notice == Silent
    ensures r.next == MainMenu || r.next.DetailView?
    ensures r.next.DetailView? <==> exists k :: 1 <= k <= |shown| && Numbers.ParseInt(answer) == Some(k)
    ensures forall k :: 1 <= k <= |shown| && Numbers.ParseInt(answer) == Some(k) ==> r.next == DetailView(shown[k - 1])
  {
    match ListScreen.Select(shown, answer)
    case Some(e) => Step(s, DetailView(e), Silent)
    case None => Step(s, MainMenu, Silent)
  }

  // ---------------------------------------------------------------- detail view

  /** `"=" * n`. */
  function Rule(n: nat): (r: string)
    ensures |r| == n && forall i :: 0 <= i < n ==> r[i] == '='
  {
    if n == 0 then [] else Rule(n - 1) + "="
  }

  /**
   * The framed text the detail view prints: the timestamp (`stamp` stands for
   * `strftime("%A %B %d, %Y %I:%M%p")`), a rule of `=` as long as it, the full
   * content, and the same rule again.
   */
  function DetailFrame(stamp: string, content: string): (r: seq<string>)
    ensures |r| == 4 && r[0] == stamp && r[2] == content
    ensures |r[1]| == |stamp| && r[3] == r[1]
    ensures forall i :: 0 <= i < |r[1]| ==> r[1][i] == '='
  {
    [stamp, Rule(|stamp|), content, Rule(|stamp|)]
  }

  /** Which of the two navigation actions the detail view prints. */
  datatype Offers = Offers(newer: bool, older: bool)

  /** `n) Newer entry` unless `cur` holds the largest id, `o) Older entry` unless it holds the smallest. */
  function DetailOffers(s: Store, cur: Entry): (r: Offers)
    requires cur in s
    ensures r.newer <==> exists e :: e in s && e.id > cur.id
    ensures r.older <==> exists e :: e in s && e.id < cur.id
  {
    var k :| 0 <= k < |s| && s[k] == cur;
    assert s[k].id <= MaxId(s) && MinId(s) <= s[k].id;
    Offers(cur.id != MaxId(s), cur.id != MinId(s))
  }

  /**
   * The newer target: the first entry in timestamp-ascending order whose id
   * is above the current one. In a valid store creation order is that order.
   */
  function Newer(s: Store, cur: Entry): (r: Option<Entry>)
    ensures r.Some? <==> exists e :: e in s && e.id > cur.id
    ensures r.Some? ==> r.value in s && r.value.id > cur.id
  {
    match FirstWhere(s, (e: Entry) => e.id > cur.id)
    case Some(k) => Some(s[k])
    case None => None
  }

  /** The older target: the first entry of the newest-first listing whose id is below the current one. */
  function Older(s: Store, cur: Entry): (r: Option<Entry>)
    ensures r.Some? <==> exists e :: e in s && e.id < cur.id
    ensures r.Some? ==> r.value in s && r.value.id < cur.id
  {
    var l := Listing(s);
    match FirstWhere(l, (e: Entry) => e.id < cur.id)
    case Some(k) => Some(l[k])
    case None => None
  }

  /** Every navigation action the detail view offers has an entry to go to. */
  lemma OfferedTargetsExist(s: Store, cur: Entry)
    requires cur in s
    ensures DetailOffers(s, cur).newer <==> Newer(s, cur).Some?
    ensures DetailOffers(s, cur).older <==> Older(s, cur).Some?
  {
  }

  /** In a valid store "newer" moves to the smallest id above the current one. */
  lemma NewerIsSuccessor(s: Store, cur: Entry)
    requires Valid(s)
    requires Newer(s, cur).Some?
    ensures forall e :: e in s && e.id > cur.id ==> Newer(s, cur).value.id <= e.id
  {
    var k := FirstWhere(s, (e: Entry) => e.id > cur.id).value;
    forall e | e in s && e.id > cur.id
      ensures s[k].id <= e.id
    {
      var j :| 0 <= j < |s| && s[j] == e;
    }
  }

  /** In a valid store "older" moves to the largest id below the current one. */
  lemma OlderIsPredecessor(s: Store, cur: Entry)
    requires Valid(s)
    requires Older(s, cur).Some?
    ensures forall e :: e in s && e.id < cur.id ==> e.id <= Older(s, cur).value.id
  {
    var l := Listing(s);
    ListingNewestFirst(s);
    var k := FirstWhere(l, (e: Entry) => e.id < cur.id).value;
    forall e | e in s && e.id < cur.id
      ensures e.id <= l[k].id
    {
      var j :| 0 <= j < |l| && l[j] == e;
    }
  }

  /** `delete_entry`: removes the entry shown once the answer to `[yN]` is `y`. */
  function DeleteEntry(s: Store, cur: Entry, answer: string): (r: Step)
    ensures r.next == MainMenu
    ensures Text.IsKey(answer, 'y') ==>
      r.notice == Deleted && forall e :: e in r.store <==> e in s && e.id != cur.id
    ensures !Text.IsKey(answer, 'y') ==> r.store == s && r.notice == Silent
  {
    if Text.IsKey(answer, 'y') then Step(Remove(s, cur.id), MainMenu, Deleted) else Step(s, MainMenu, Silent)
  }

  /** Deleting the shown entry of a valid store removes exactly one entry and keeps the store valid. */
  lemma DeleteEntryRemovesOne(s: Store, cur: Entry, answer: string)
    requires Valid(s) && cur in s
    requires Text.IsKey(answer, 'y')
    ensures |DeleteEntry(s, cur, answer).store| == |s| - 1
    ensures Valid(DeleteEntry(s, cur, answer).store)
  {
    RemovePresent(s, cur.id);
    RemoveKeepsValid(s, cur.id);
  }

  /**
   * One round of `view_entry`: `action` is the reply to its menu, `confirm`
   * the reply to the deletion question (asked only after `d`).
   */
  function DetailStep(s: Store, cur: Entry, action: string, confirm: string): (r: Step)
    requires cur in s
    ensures r.next != Exited
    ensures r.store == s || (Text.IsKey(action, 'd') && Text.IsKey(confirm, 'y'))
    ensures Text.IsKey(action, 'n') ==>
      r == if DetailOffers(s, cur).newer then Step(s, DetailView(Newer(s, cur).value), Silent)
           else Step(s, MainMenu, Silent)
    ensures Text.IsKey(action, 'o') ==>
      r == if DetailOffers(s, cur).older then Step(s, DetailView(Older(s, cur).value), Silent)
           else Step(s, MainMenu, Silent)
    ensures Text.IsKey(action, 'd') ==> r == DeleteEntry(s, cur, confirm)
    ensures !Text.IsKey(action, 'n') && !Text.IsKey(action, 'o') && !Text.IsKey(action, 'd') ==>
      r == Step(s, MainMenu, Silent)
    ensures r.next.DetailView? ==> r.store == s && r.notice == Silent && r.next.entry in s
  {
    var offers := DetailOffers(s, cur);
    if Text.IsKey(action, 'n') && offers.newer then Step(s, DetailView(Newer(s, cur).value), Silent)
    else if Text.IsKey(action, 'o') && offers.older then Step(s, DetailView(Older(s, cur).value), Silent)
    else if Text.IsKey(action, 'd') then DeleteEntry(s, cur, confirm)
    else Step(s, MainMenu, Silent)
  }

  /** In a valid store "n" steps to the next entry by id and "o" to the previous one. */
  lemma DetailNavigatesById(s: Store, cur: Entry, action: string, confirm: string)
    requires Valid(s) && cur in s
    ensures var r := DetailStep(s, cur, action, confirm);
      Text.IsKey(action, 'n') && r.next.DetailView? ==>
        r.next.entry.id > cur.id && forall e :: e in s && e.id > cur.id ==> r.next.entry.id <= e.id
    ensures var r := DetailStep(s, cur, action, confirm);
      Text.IsKey(action, 'o') && r.next.DetailView? ==>
        r.next.entry.id < cur.id && forall e :: e in s && e.id < cur.id ==> e.id <= r.next.entry.id
  {
    var r := DetailStep(s, cur, action, confirm);
    if Text.IsKey(action, 'n') && r.next.DetailView? {
      assert DetailOffers(s, cur).newer;
      assert r.next.entry == Newer(s, cur).value;
      NewerIsSuccessor(s, cur);
    }
    if Text.IsKey(action, 'o') && r.next.DetailView? {
      assert DetailOffers(s, cur).older;
      assert r.next.entry == Older(s, cur).value;
      OlderIsPredecessor(s, cur);
    }
  }

  // ---------------------------------------------------------------- search

  /** `Entry.content.contains(query)` as the diary sees it: whether an entry's text matches a query. */
  type Matcher = (string, string) -> bool

  /** The matches of `query`, in listing order. */
  function Results(s: Store, query: string, matches: Matcher): seq<Entry> {
    Filter(Listing(s), query, matches)
  }

  /**
   * `search_entries`: an empty query does nothing; otherwise the count is
   * printed and several matches open the list, a single one its detail view.
   */
  function SearchEntries(s: Store, query: string, matches: Matcher): (r: Step)
    ensures r.store == s
    ensures r.next == MainMenu || r.next.ListView? || r.next.DetailView?
    ensures query == "" ==> r.next == MainMenu && r.notice == Silent
    ensures query != "" ==> r.notice.ResultsFound?
    ensures query != "" ==> (r.notice.count == 0 <==> forall e :: e in s ==> !matches(e.content, query))
    ensures query != "" ==> r.notice == ResultsFound(|Results(s, query, matches)|)
    ensures query != "" ==> (r.next.ListView? <==> r.notice.count > 1)
    ensures query != "" ==> (r.next.DetailView? <==> r.notice.count == 1)
    ensures query != "" ==> (r.next == MainMenu <==> r.notice.count == 0)
    ensures r.next.ListView? ==>
      && r.notice == ResultsFound(|r.next.shown|) && 1 < |r.next.shown|
      && forall e :: e in r.next.shown <==> e in s && matches(e.content, query)
    ensures r.next.DetailView? ==>
      && r.notice == ResultsFound(1)
      && r.next.entry in s && matches(r.next.entry.content, query)
      && forall e :: e in s && matches(e.content, query) ==> e == r.next.entry
  {
    if query == "" then Step(s, MainMenu, Silent)
    else
      var found := Results(s, query, matches);
      assert |found| > 0 ==> found[0] in found;
      if |found| > 1 then Step(s, ListView(found), ResultsFound(|found|))
      else if |found| == 1 then
        assert forall e :: e in found ==> e == found[0];
        Step(s, DetailView(found[0]), ResultsFound(1))
      else
        assert forall e :: e in s ==> !matches(e.content, query) by {
          forall e | e in s ensures !matches(e.content, query) {
            assert e !in found;
          }
        }
        Step(s, MainMenu, ResultsFound(0))
  }

  /** Search results of a valid store keep the listing's newest-first order. */
  lemma SearchResultsNewestFirst(s: Store, query: string, matches: Matcher)
    requires Valid(s)
    requires SearchEntries(s, query, matches).next.ListView?
    ensures NewestFirst(SearchEntries(s, query, matches).next.shown)
  {
    ListingNewestFirst(s);
    FilterKeepsOrder(Listing(s), query, matches);
  }

  /** In a valid store the printed count is the number of entries that match. */
  lemma SearchCountsMatches(s: Store, query: string, matches: Matcher)
    requires Valid(s)
    requires query != ""
    ensures SearchEntries(s, query, matches).notice == ResultsFound(|Passing(s, query, matches)|)
  {
    ListingNewestFirst(s);
    FilterCount(Listing(s), query, matches);
    assert Passing(Listing(s), query, matches) == Passing(s, query, matches);
  }

  /** Two different entries that both match open the list of results, never a single entry. */
  lemma SeveralMatchesOpenList(s: Store, query: string, matches: Matcher, e1: Entry, e2: Entry)
    requires query != ""
    requires e1 in s && matches(e1.content, query)
    requires e2 in s && matches(e2.content, query)
    requires e1 != e2
    ensures SearchEntries(s, query, matches).next.ListView?
  {
    var found := Results(s, query, matches);
    assert e1 in found && e2 in found;
  }

  /** `query` occurs in `text` starting at position `i`. */
  predicate OccursAt(text: string, query: string, i: nat) {
    i + |query| <= |text| && text[i..i + |query|] == query
  }

  /** Plain, case-sensitive substring containment. */
  predicate Contains(text: string, query: string) {
    exists i: nat :: i <= |text| && OccursAt(text, query, i)
  }

  /** The first two elements of a sequence are members of it. */
  lemma FirstTwoIn(xs: seq<Entry>)
    requires 1 < |xs|
    ensures xs[0] in xs && xs[1] in xs
  {
  }

  /** A newest-first sequence holds no entry twice, so one that holds only `e` has at most one element. */
  lemma AtMostOneCopy(xs: seq<Entry>, e: Entry)
    requires NewestFirst(xs)
    requires forall x :: x in xs ==> x == e
    ensures |xs| <= 1
  {
    if 1 < |xs| {
      FirstTwoIn(xs);
      assert false;
    }
  }

  /** In a valid store, a text found in exactly one entry opens that entry directly. */
  lemma UniqueMatchOpensEntry(s: Store, query: string, e: Entry)
    requires Valid(s)
    requires query != ""
    requires e in s && Contains(e.content, query)
    requires forall x :: x in s && x != e ==> !Contains(x.content, query)
    ensures SearchEntries(s, query, Contains).next == DetailView(e)
  {
    var found := Results(s, query, Contains);
    ListingNewestFirst(s);
    FilterKeepsOrder(Listing(s), query, Contains);
    assert e in found;
    assert forall x :: x in found ==> x == e;
    AtMostOneCopy(found, e);
  }

  // ---------------------------------------------------------------- deletion of everything

  /** `delete_entries`: empties the store once the answer to `[yN]` is `y`. */
  function DeleteEntries(s: Store, answer: string): (r: Step)
    ensures r.next == MainMenu
    ensures Text.IsKey(answer, 'y') ==> r.store == [] && r.notice == Deleted
    ensures !Text.IsKey(answer, 'y') ==> r.store == s && r.notice == Silent
  {
    if Text.IsKey(answer, 'y') then Step([], MainMenu, Deleted) else Step(s, MainMenu, Silent)
  }

  // ---------------------------------------------------------------- main menu

  /** The keys of the `menu` table. */
  datatype Command = AddCommand | ViewCommand | SearchCommand | DeleteAllCommand | QuitCommand

  /** `choice in menu` after `.lower().strip()`. */
  function ParseCommand(line: string): (r: Option<Command>)
    ensures r == Some(AddCommand) <==> Text.Strip(line) in {"a", "A"}
    ensures r == Some(ViewCommand) <==> Text.Strip(line) in {"v", "V"}
    ensures r == Some(SearchCommand) <==> Text.Strip(line) in {"s", "S"}
    ensures r == Some(DeleteAllCommand) <==> Text.Strip(line) in {"d", "D"}
    ensures r == Some(QuitCommand) <==> Text.Strip(line) in {"q", "Q"}
  {
    Text.KeyMatch(line, 'a');
    Text.KeyMatch(line, 'v');
    Text.KeyMatch(line, 's');
    Text.KeyMatch(line, 'd');
    Text.KeyMatch(line, 'q');
    var key := Text.Normalize(line);
    if key == "a" then Some(AddCommand)
    else if key == "v" then Some(ViewCommand)
    else if key == "s" then Some(SearchCommand)
    else if key == "d" then Some(DeleteAllCommand)
    else if key == "q" then Some(QuitCommand)
    else None
  }

  /** What the chosen command reads from the terminal after the key. */
  datatype Answers = Answers(text: string, confirm: string, query: string)

  /**
   * The dispatch step of one pass of `menu_loop`: read a key and start the
   * command it names. When `v` or `s` opens a view, the pass goes on in
   * `ListStep` and `DetailStep`, where a confirmed deletion can still change
   * the store.
   */
  function MenuStep(s: Store, line: string, answers: Answers, now: Timestamp, matches: Matcher): (r: Step)
    ensures ParseCommand(line).None? ==> r == Step(s, MainMenu, Silent)
    ensures r.next == Exited <==> ParseCommand(line) == Some(QuitCommand)
    ensures r.store != s ==> ParseCommand(line) == Some(AddCommand) || ParseCommand(line) == Some(DeleteAllCommand)
    ensures ParseCommand(line) == Some(AddCommand) ==> r == AddEntry(s, answers.text, answers.confirm, now)
    ensures ParseCommand(line) == Some(ViewCommand) ==> r == ViewEntries(s)
    ensures ParseCommand(line) == Some(SearchCommand) ==> r == SearchEntries(s, answers.query, matches)
    ensures ParseCommand(line) == Some(DeleteAllCommand) ==> r == DeleteEntries(s, answers.confirm)
    ensures ParseCommand(line) == Some(QuitCommand) ==> r == Step(s, Exited, Silent)
  {
    match ParseCommand(line)
    case None => Step(s, MainMenu, Silent)
    case Some(AddCommand) => AddEntry(s, answers.text, answers.confirm, now)
    case Some(ViewCommand) => ViewEntries(s)
    case Some(SearchCommand) => SearchEntries(s, answers.query, matches)
    case Some(DeleteAllCommand) => DeleteEntries(s, answers.confirm)
    case Some(QuitCommand) => Step(s, Exited, Silent)
  }

  /** Adding at a clock reading later than every stored entry keeps the store valid. */
  lemma AddEntryKeepsValid(s: Store, text: string, answer: string, now: Timestamp)
    requires Valid(s)
    requires forall i :: 0 <= i < |s| ==> s[i].ts < now
    ensures Valid(AddEntry(s, text, answer, now).store)
  {
    CreateKeepsValid(s, Text.Strip(text), now);
  }

  /** A menu step keeps the store valid when the clock reads later than every stored entry. */
  lemma MenuStepKeepsValid(s: Store, line: string, answers: Answers, now: Timestamp, matches: Matcher)
    requires Valid(s)
    requires forall i :: 0 <= i < |s| ==> s[i].ts < now
    ensures Valid(MenuStep(s, line, answers, now, matches).store)
  {
    match ParseCommand(line)
    case Some(AddCommand) => AddEntryKeepsValid(s, answers.text, answers.confirm, now);
    case _ =>
  }

  /** A detail-view step keeps the store valid. */
  lemma DetailStepKeepsValid(s: Store, cur: Entry, action: string, confirm: string)
    requires Valid(s) && cur in s
    ensures Valid(DetailStep(s, cur, action, confirm).store)
  {
    if Text.IsKey(action, 'd') && Text.IsKey(confirm, 'y') {
      RemoveKeepsValid(s, cur.id);
    }
  }
}
