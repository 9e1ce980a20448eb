/** Feature flags and Pro gating (web/src/config/features.ts). */
module Features {
  import opened Wrappers

  /** The keys of `FEATURES` and `PRO_FEATURES`. */
  datatype Feature = Leagues | Challenges

  /** `FEATURES[f]`: whether the feature is switched on for everyone. */
  function FeatureEnabled(f: Feature): (enabled: bool)
    ensures enabled <==> f == Leagues
  {
    match f
    case Leagues => true
    case Challenges => false
  }

  /** `PRO_FEATURES[f]` */
  function ProFeature(f: Feature): bool {
    match f
    case Leagues => true
    case Challenges => true
  }

  /** User ids given Pro access without a purchase. */
  const PRO_WHITELIST: seq<string> := ["xY92P6mRmra3VtXj9Rs1azmVC412"]

  /** `hasProAccess(userId, hasPurchased = false)`: no access without a user
      id (undefined or empty), access for every whitelisted id, and otherwise
      exactly when Pro was purchased. */
  function HasProAccess(userId: Option<string>, hasPurchased: bool := false): (access: bool)
    ensures userId.None? || userId.value == "" ==> !access
  {
    if userId.None? || userId.value == "" then false
    else if userId.value in PRO_WHITELIST then true
    else hasPurchased
  }

  /** `requiresPro(feature)`: every feature is a Pro feature. */
  function RequiresPro(feature: Feature): (pro: bool)
    ensures pro == ProFeature(feature)
    ensures pro
  {
    ProFeature(feature)
  }

  /** A whitelisted id has access whether or not it purchased. */
  lemma WhitelistAlwaysHasAccess(userId: string, hasPurchased: bool)
    requires userId in PRO_WHITELIST
    ensures HasProAccess(Some(userId), hasPurchased)
  {
    WhitelistNonEmpty();
  }

  /** Every whitelisted id is a non-empty string, so the id check never
      hides a whitelist entry. */
  lemma WhitelistNonEmpty()
    ensures forall id :: id in PRO_WHITELIST ==> id != ""
  {
  }

  /** Any other non-empty id has access exactly when it purchased; with the
      default argument that is never. */
  lemma OthersNeedPurchase(userId: string, hasPurchased: bool)
    requires userId != "" && userId !in PRO_WHITELIST
    ensures HasProAccess(Some(userId), hasPurchased) == hasPurchased
    ensures !HasProAccess(Some(userId))
  {
  }

  /** Access is granted exactly to non-empty ids that are whitelisted or
      purchased, and purchasing never removes access. */
  lemma AccessMeaning(userId: Option<string>, hasPurchased: bool)
    ensures HasProAccess(userId, hasPurchased) <==>
      userId.Some? && userId.value != "" && (userId.value in PRO_WHITELIST || hasPurchased)
    ensures HasProAccess(userId) ==> HasProAccess(userId, true)
  {
  }
}
