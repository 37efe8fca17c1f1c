/** The link row, as the redirect path sees it. */
module Links {
  import opened Wrappers
  import opened Lru

  datatype Status = Active | Disabled

  /** The columns an edit may change besides the code. */
  datatype Details = Details(
    targetUrl: string,
    title: string,
    userId: Option<string>,
    status: Status,
    redirectStatus: int,
    passwordHash: Option<string>,
    expiresAt: Option<int>,
    maxClicks: Option<int>)

  datatype Link = Link(id: string, code: Code, details: Details, clickCount: int, deletedAt: Option<int>)

  /** The same answer, apart from the click count. */
  predicate Agree(a: Option<Link>, b: Option<Link>) {
    && (a.None? <==> b.None?)
    && (a.Some? ==> a.value.(clickCount := 0) == b.value.(clickCount := 0))
  }
}
