/**
 * The per-user statistics panel of `loadUserDetailedStats`: the rows are sorted by
 * total (accounts plus leads, a missing count taken as 0), the first three get a
 * "top" badge when their total exceeds 20, and each role has its own norm.
 */
module UserStats {
  import opened Wrappers
  import opened Sorting
  import opened Html

  /** One element of `res.stats`; `None` is a missing or `null` field. */
  datatype UserStat = UserStat(
    username: Option<string>,
    role: Option<string>,
    instagram: Option<string>,
    happnTotal: Option<int>,
    leadsTotal: Option<int>)

  /** What the norm line of a card says. */
  datatype Norm =
    | LeadsNorm(met: bool, leads: int)   // "Норма: 10 лидов"
    | DailyAccountsNorm                  // "Норма: 5 аккаунтов/день"
    | NoObligation                       // "Нет обязательств"
    | NoNorm                             // no norm line

  /** One rendered card: the escaped name, the role as inserted (not escaped), the
      escaped Instagram name, the counts, the badge rank and the norm. */
  datatype Card = Card(name: string, role: string, instagram: string,
                       happn: int, leads: int, total: int,
                       topRank: Option<nat>, norm: Norm)

  /** What the panel shows. */
  datatype View = NoData | Cards(cards: seq<Card>)

  const TopCount: nat := 3
  const TopThreshold: int := 20
  const LeadsQuota: int := 10

  /** `n || 0`. */
  function OrZero(n: Option<int>): int {
    if n.Some? then n.value else 0
  }

  /** `(u.happn_total || 0) + (u.leads_total || 0)`. */
  function Total(u: UserStat): (t: int)
    ensures u.happnTotal.None? ==> t == OrZero(u.leadsTotal)
    ensures u.leadsTotal.None? ==> t == OrZero(u.happnTotal)
  {
    OrZero(u.happnTotal) + OrZero(u.leadsTotal)
  }

  /** The badge of the card at `index`: rank `index + 1` among the first three,
      for a total above 20. */
  function TopRank(index: nat, total: int): (r: Option<nat>)
    ensures r.Some? <==> index < TopCount && total > TopThreshold
    ensures r.Some? ==> r.value == index + 1
  {
    if index < TopCount && total > TopThreshold then Some(index + 1) else None
  }

  /** The norm for a role: a traffer's is met at 10 leads, a beginner's is counted in
      accounts per day, team leads and "Раф" have none, and any other role (or none)
      gets no norm line. */
  function RoleNorm(u: UserStat): (r: Norm)
    ensures u.role == Some("Трафер") ==>
      r.LeadsNorm? && (r.met <==> OrZero(u.leadsTotal) >= LeadsQuota)
    ensures u.role == Some("Тим Лид") || u.role == Some("\U{2B50}\U{FE0F} Раф") ==> r == NoObligation
    ensures u.role == Some("Новичок Трафер") ==> r == DailyAccountsNorm
    ensures r == NoNorm <==>
      && u.role != Some("Трафер") && u.role != Some("Новичок Трафер")
      && u.role != Some("Тим Лид") && u.role != Some("\U{2B50}\U{FE0F} Раф")
  {
    var leads := OrZero(u.leadsTotal);
    if u.role == Some("Трафер") then LeadsNorm(leads >= LeadsQuota, leads)
    else if u.role == Some("Новичок Трафер") then DailyAccountsNorm
    else if u.role == Some("Тим Лид") || u.role == Some("\U{2B50}\U{FE0F} Раф") then NoObligation
    else NoNorm
  }

  /** `user.username || 'Unknown'`. */
  function NameOrUnknown(u: UserStat): string {
    OrElse(u.username, "Unknown")
  }

  /** `s || fallback` for an optional string. */
  function OrElse(s: Option<string>, fallback: string): string {
    if s.None? || s == Some([]) then fallback else s.value
  }

  /** The card of the row at `index`. */
  function CardFor(u: UserStat, index: nat): Card {
    Card(Escape(NameOrUnknown(u)), OrElse(u.role, "Не назначена"),
         Escape(OrElse(u.instagram, "—")),
         OrZero(u.happnTotal), OrZero(u.leadsTotal), Total(u),
         TopRank(index, Total(u)), RoleNorm(u))
  }

  /** What a card inserts into the markup: the name and the Instagram name are escaped,
      so they hold no `<`, `>` or `"`; the role is inserted as stored. */
  lemma CardEscaping(u: UserStat, index: nat)
    ensures var c := CardFor(u, index);
      && (forall k :: 0 <= k < |c.name| ==> c.name[k] !in "<>\"")
      && (forall k :: 0 <= k < |c.instagram| ==> c.instagram[k] !in "<>\"")
      && (u.role.Some? && u.role.value != [] ==> c.role == u.role.value)
  {
    EscapeHasNoMarkup(NameOrUnknown(u));
    EscapeHasNoMarkup(OrElse(u.instagram, "—"));
  }

  /** The cards, one per row in order. */
  function CardsOf(s: seq<UserStat>): (r: seq<Card>)
    ensures |r| == |s| && forall i :: 0 <= i < |s| ==> r[i] == CardFor(s[i], i)
  {
    seq(|s|, i requires 0 <= i < |s| => CardFor(s[i], i))
  }

  lemma CardsOfStep(rows: seq<UserStat>, i: nat)
    requires i < |rows|
    ensures CardsOf(rows[..i + 1]) == CardsOf(rows[..i]) + [CardFor(rows[i], i)]
  {
    var a := CardsOf(rows[..i + 1]);
    var p := CardsOf(rows[..i]);
    forall k | 0 <= k < i ensures a[k] == p[k] {
      assert rows[..i + 1][k] == rows[..i][k];
    }
    assert a[i] == CardFor(rows[i], i) by {
      assert rows[..i + 1][i] == rows[i];
    }
    Snoc(a, p, CardFor(rows[i], i));
  }

  lemma Snoc<T>(a: seq<T>, p: seq<T>, x: T)
    requires |a| == |p| + 1 && a[|p|] == x
    requires forall k :: 0 <= k < |p| ==> a[k] == p[k]
    ensures a == p + [x]
  {
  }

  /** On rows sorted by total, the badges go to a prefix of at most three cards, the
      card at index `i` ranked `i + 1`: once a card goes without, every later one does. */
  lemma TopBadgesPrefix(s: seq<UserStat>)
    requires SortedDescBy(s, Total)
    ensures forall i :: 0 <= i < |s| && CardsOf(s)[i].topRank.Some? ==>
      i < TopCount && CardsOf(s)[i].topRank == Some(i + 1)
    ensures forall i, j :: 0 <= j < i < |s| && CardsOf(s)[i].topRank.Some? ==>
      CardsOf(s)[j].topRank.Some?
  {
    var cs := CardsOf(s);
    forall i, j | 0 <= j < i < |s| && cs[i].topRank.Some? ensures cs[j].topRank.Some? {
      assert Total(s[j]) >= Total(s[i]);
    }
  }

  /** The panel: "no data" for an empty list; otherwise the rows are sorted in place by
      descending total, ties keeping their order, and a card is rendered per row. */
  method RenderStats(stats: array<UserStat>) returns (v: View)
    modifies stats
    ensures stats.Length == 0 ==> v == NoData
    ensures stats.Length > 0 ==> v == Cards(CardsOf(stats[..]))
    ensures stats[..] == SortDescBy(old(stats[..]), Total)
  {
    if stats.Length == 0 {
      assert stats[..] == [];
      return NoData;
    }
    SortDescInPlace(stats, Total);
    var cards := RenderCards(stats[..]);
    v := Cards(cards);
  }

  /** The `html +=` loop over the sorted rows. */
  method RenderCards(rows: seq<UserStat>) returns (cards: seq<Card>)
    ensures cards == CardsOf(rows)
  {
    cards := [];
    var i := 0;
    while i < |rows|
      invariant 0 <= i <= |rows|
      invariant cards == CardsOf(rows[..i])
    {
      CardsOfStep(rows, i);
      cards := cards + [CardFor(rows[i], i)];
      i := i + 1;
    }
    PrefixWhole(rows);
  }
}
