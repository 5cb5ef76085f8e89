/**
 * The user ledger (app/models/user.rb): the running upload and download
 * totals the tracker credits, and the case structure of the share ratio.
 * Authentication fields and the e-mail format rule belong to the account
 * layer and are not modelled; `email` stands for every column the ledger
 * leaves alone.
 */
module UserModel {
  import opened Text

  datatype User = User(id: Uuid, email: Bytes, uploaded: int, downloaded: int)

  /** `update_stats!`: both deltas are added as given, with no clamping. */
  function UpdateStats(u: User, du: int, dd: int): (r: User)
    ensures r.id == u.id && r.email == u.email
    ensures r.uploaded - u.uploaded == du && r.downloaded - u.downloaded == dd
  {
    u.(uploaded := u.uploaded + du, downloaded := u.downloaded + dd)
  }

  /** The four outcomes of `ratio`; the float value of the last one is
      left abstract and kept as the two counters it is computed from. */
  datatype RatioCase = NoRatio | Infinite | ZeroRatio | Quotient(uploaded: int, downloaded: int)

  /** `ratio`, its guards tried in the source's order. */
  function Ratio(u: User): RatioCase {
    if u.uploaded == 0 && u.downloaded == 0 then NoRatio
    else if u.downloaded == 0 && u.uploaded > 0 then Infinite
    else if u.uploaded == 0 then ZeroRatio
    else Quotient(u.uploaded, u.downloaded)
  }

  // ---------------------------------------------------------------------
  // Properties
  // ---------------------------------------------------------------------

  /** Zero deltas leave the user as it was. */
  lemma UpdateStatsZero(u: User)
    ensures UpdateStats(u, 0, 0) == u
  {
  }

  /** Two updates add up to one update by the summed deltas. */
  lemma UpdateStatsCompose(u: User, du1: int, dd1: int, du2: int, dd2: int)
    ensures UpdateStats(UpdateStats(u, du1, dd1), du2, dd2) == UpdateStats(u, du1 + du2, dd1 + dd2)
  {
  }

  /** An update is undone by the opposite deltas, so negative deltas
      really decrease the counters. */
  lemma UpdateStatsInverse(u: User, du: int, dd: int)
    ensures UpdateStats(UpdateStats(u, du, dd), -du, -dd) == u
  {
  }

  /** nil exactly when both counters are zero. */
  lemma RatioNil(u: User)
    ensures Ratio(u) == NoRatio <==> u.uploaded == 0 && u.downloaded == 0
  {
  }

  /** Infinity exactly when nothing was downloaded and something was uploaded. */
  lemma RatioInfinite(u: User)
    ensures Ratio(u) == Infinite <==> u.downloaded == 0 && u.uploaded > 0
  {
  }

  /** 0.0 exactly when nothing was uploaded but the download total is not zero. */
  lemma RatioZero(u: User)
    ensures Ratio(u) == ZeroRatio <==> u.uploaded == 0 && u.downloaded != 0
  {
  }

  /** A quotient in every other case; it is a finite quotient whenever the
      download total is not zero, which holds for non-negative counters. */
  lemma RatioQuotient(u: User)
    ensures Ratio(u).Quotient? <==> u.uploaded != 0 && (u.downloaded != 0 || u.uploaded < 0)
    ensures Ratio(u).Quotient? ==> Ratio(u).uploaded == u.uploaded && Ratio(u).downloaded == u.downloaded
    ensures Ratio(u).Quotient? && u.uploaded >= 0 ==> u.downloaded != 0
  {
  }

  /** For non-negative counters the four cases are: both zero, only upload,
      only download, both positive. */
  lemma RatioNonNegative(u: User)
    requires u.uploaded >= 0 && u.downloaded >= 0
    ensures Ratio(u) == ZeroRatio <==> u.uploaded == 0 && u.downloaded > 0
    ensures Ratio(u).Quotient? <==> u.uploaded > 0 && u.downloaded > 0
  {
  }
}
