/** The page navigator (src/components/paginator.tsx): which of its two
    buttons are disabled, the "page N of M" label and the "updating" line,
    as functions of its props. The click handlers are the caller's and are
    modelled with the listing view. */
module Paginator {
  import opened Wrappers

  /** The props. `isFetching` is optional in the source and defaults to
      `false`; `None` is the omitted prop. */
  datatype Props = Props(page: int, totalPages: int, isFetching: Option<bool>)

  /** What the component shows. */
  datatype View = View(
    prevDisabled: bool,
    shownPage: int,
    shownTotal: int,
    nextDisabled: bool,
    updating: bool)

  /** The effective `isFetching`: an omitted prop reads as `false`. */
  function Fetching(p: Props): (r: bool)
    ensures r <==> p.isFetching == Some(true)
  {
    p.isFetching.GetOr(false)
  }

  /** `Math.max(1, totalPages)`: the page count as displayed. */
  function ShownTotal(totalPages: int): (r: int)
    ensures r >= 1 && r >= totalPages
    ensures r == 1 || r == totalPages
  {
    if totalPages < 1 then 1 else totalPages
  }

  predicate IsFirst(p: Props) {
    p.page <= 1
  }

  predicate IsLast(p: Props) {
    p.page >= ShownTotal(p.totalPages)
  }

  /** The rendered navigator. The previous button is disabled on the first
      page or while fetching; the next button on the last page (a count
      below 1 counts as 1) or while fetching; the "updating" line is shown
      exactly while fetching. */
  function Render(p: Props): (v: View)
    ensures v.prevDisabled <==> p.page <= 1 || p.isFetching == Some(true)
    ensures v.nextDisabled <==>
              (p.page >= 1 && p.page >= p.totalPages) || p.isFetching == Some(true)
    ensures v.shownPage == p.page
    ensures v.shownTotal >= 1 && (v.shownTotal == p.totalPages || (v.shownTotal == 1 && p.totalPages < 1))
    ensures v.updating <==> p.isFetching == Some(true)
  {
    View(IsFirst(p) || Fetching(p), p.page, ShownTotal(p.totalPages),
         IsLast(p) || Fetching(p), Fetching(p))
  }

  /** Omitting `isFetching` renders exactly as passing `false`. */
  lemma OmittedFetchingIsFalse(page: int, totalPages: int)
    ensures Render(Props(page, totalPages, None)) == Render(Props(page, totalPages, Some(false)))
  {
  }

  /** On the first page of a single-page (or empty) result both buttons
      are disabled, fetching or not. */
  lemma SinglePageBothDisabled(p: Props)
    requires p.page == 1 && p.totalPages <= 1
    ensures Render(p).prevDisabled && Render(p).nextDisabled
  {
  }

  /** Page 1 is not enough to be the first page's only guard: a page past
      a single-page total keeps the previous button enabled while idle. */
  lemma PastTheEndPrevEnabled()
    ensures !Render(Props(2, 1, None)).prevDisabled
    ensures Render(Props(2, 1, None)).nextDisabled
  {
  }

  /** While idle, a page strictly inside `[1, total]` leaves both buttons
      enabled, and each button is enabled exactly when its step stays in
      range. */
  lemma IdleButtonsFollowRange(p: Props)
    requires p.isFetching != Some(true)
    ensures !Render(p).prevDisabled <==> p.page - 1 >= 1
    ensures !Render(p).nextDisabled <==> p.page + 1 <= ShownTotal(p.totalPages)
  {
  }

  /** While fetching nothing can be clicked. */
  lemma FetchingDisablesBoth(p: Props)
    requires p.isFetching == Some(true)
    ensures Render(p).prevDisabled && Render(p).nextDisabled && Render(p).updating
  {
  }
}
