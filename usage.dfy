/** The usage displays: the warning banner (components/usage-warning-banner.tsx) and the
    upgrade dialog (components/usage-limit-modal.tsx). Both divide usage by the plan limit,
    so they are modelled over JavaScript numbers, whose division by zero gives an infinity
    or NaN. Finite numbers are idealised as exact reals. */
module Usage {
  import opened Text
  import Plans

  /** A JavaScript number. */
  datatype Num = Finite(r: real) | PosInf | NegInf | NaN

  /** `a / b` for whole numbers `a` and `b`. */
  function Divide(a: int, b: int): (q: Num)
    ensures b != 0 ==> q == Finite(a as real / b as real)
    ensures b == 0 ==> (a > 0 <==> q == PosInf) && (a < 0 <==> q == NegInf) && (a == 0 <==> q == NaN)
  {
    if b != 0 then Finite(a as real / b as real)
    else if a > 0 then PosInf
    else if a < 0 then NegInf
    else NaN
  }

  /** `x * 100`. */
  function Percent(x: Num): Num {
    match x
    case Finite(r) => Finite(r * 100.0)
    case _ => x
  }

  /** `x >= c` for a finite constant `c`: false for NaN. */
  predicate AtLeast(x: Num, c: real) {
    match x
    case Finite(r) => r >= c
    case PosInf => true
    case _ => false
  }

  /** `x > c` for a finite constant `c`: false for NaN. */
  predicate Above(x: Num, c: real) {
    match x
    case Finite(r) => r > c
    case PosInf => true
    case _ => false
  }

  /** `Math.min(x, c)` for a finite constant `c`: NaN stays NaN. */
  function MinWith(x: Num, c: real): (m: Num)
    ensures x.Finite? || x == PosInf ==> m.Finite? && m.r <= c
    ensures x == NegInf || x == NaN ==> m == x
    ensures x.Finite? && x.r <= c ==> m == x
  {
    match x
    case Finite(r) => Finite(if r <= c then r else c)
    case PosInf => Finite(c)
    case NegInf => NegInf
    case NaN => NaN
  }

  /** `(usage / limit) * 100`. */
  function Percentage(usage: int, limit: int): Num {
    Percent(Divide(usage, limit))
  }

  /** For a positive limit the percentage is finite, and reaching a threshold `c` percent is
      the whole-number condition `100 * usage >= c * limit`. */
  lemma PercentageThreshold(usage: int, limit: int, c: int)
    requires limit > 0
    ensures Percentage(usage, limit).Finite?
    ensures AtLeast(Percentage(usage, limit), c as real) <==> 100 * usage >= c * limit
    ensures Above(Percentage(usage, limit), c as real) <==> 100 * usage > c * limit
  {
    var q := usage as real / limit as real;
    assert q * limit as real == usage as real;
    var p := q * 100.0;
    assert p * limit as real == 100.0 * usage as real;
    if p >= c as real {
      assert p * limit as real >= c as real * limit as real;
    } else {
      assert p * limit as real < c as real * limit as real;
    }
  }

  // ---------------------------------------------------------------------------
  // UsageWarningBanner
  // ---------------------------------------------------------------------------

  const NearLimitPercent: real := 80.0

  /** What the banner renders: nothing, or an alert that is either at the limit or near it,
      with its progress value and, when not at the limit, the remaining count. */
  datatype Banner = Hidden | Shown(atLimit: bool, progress: Num, remaining: Option<int>)

  /** `UsageWarningBanner` (lines 16-57). */
  function WarningBanner(usage: int, limit: int): (b: Banner)
    ensures limit == Plans.Unlimited ==> b == Hidden
    ensures limit != Plans.Unlimited ==> (b.Shown? <==> AtLeast(Percentage(usage, limit), NearLimitPercent))
    ensures b.Shown? ==> (b.atLimit <==> usage >= limit)
    ensures b.Shown? ==> b.progress.Finite? && NearLimitPercent <= b.progress.r <= 100.0
    ensures b.Shown? && !b.atLimit ==> b.remaining == Some(limit - usage)
    ensures b.Shown? && b.atLimit ==> b.remaining == None
  {
    if limit == Plans.Unlimited then Hidden
    else
      var usagePercentage := Percentage(usage, limit);
      var isNearLimit := AtLeast(usagePercentage, NearLimitPercent);
      var isAtLimit := usage >= limit;
      if !isNearLimit then Hidden
      else Shown(isAtLimit, MinWith(usagePercentage, 100.0),
                 if isAtLimit then None else Some(limit - usage))
  }

  /** For a positive limit the banner shows exactly when `100 * usage >= 80 * limit`; being at
      the limit implies being near it; and the remaining count it shows is positive. */
  lemma BannerRules(usage: int, limit: int)
    requires limit > 0
    ensures WarningBanner(usage, limit).Shown? <==> 100 * usage >= 80 * limit
    ensures usage >= limit ==> WarningBanner(usage, limit).Shown? && WarningBanner(usage, limit).atLimit
    ensures WarningBanner(usage, limit).Shown? && !WarningBanner(usage, limit).atLimit ==>
              WarningBanner(usage, limit).remaining.value > 0
  {
    PercentageThreshold(usage, limit, 80);
  }

  /** A zero limit, which no plan has, divides by zero: any positive usage shows the banner
      at the limit, and zero usage (NaN) shows nothing. */
  lemma BannerZeroLimit(usage: int)
    ensures usage > 0 ==> WarningBanner(usage, 0).Shown? && WarningBanner(usage, 0).atLimit
    ensures usage == 0 ==> WarningBanner(usage, 0) == Hidden
  {
  }

  // ---------------------------------------------------------------------------
  // UsageLimitModal
  // ---------------------------------------------------------------------------

  datatype UpgradeOption = UpgradeOption(name: String, price: String, limitLabel: String, href: String)

  const ProOption: UpgradeOption := UpgradeOption("Pro", "$9/month", "30 conversations", "/pricing")
  const BusinessOption: UpgradeOption :=
    UpgradeOption("Business", "$29/month", "Unlimited conversations", "/pricing")

  /** `getUpgradeOptions` (lines 22-52): the plans above the current one, cheapest first. */
  function GetUpgradeOptions(currentPlan: String): (options: seq<UpgradeOption>)
    ensures currentPlan == "free" ==> options == [ProOption, BusinessOption]
    ensures currentPlan == "pro" ==> options == [BusinessOption]
    ensures currentPlan != "free" && currentPlan != "pro" ==> options == []
  {
    if currentPlan == "free" then [ProOption, BusinessOption]
    else if currentPlan == "pro" then [BusinessOption]
    else []
  }

  /** Plan `a` allows more conversations than plan `b`, unlimited counting as the most. */
  predicate MoreRoom(a: String, b: String) {
    var la := Plans.ConversationLimit(Some(a));
    var lb := Plans.ConversationLimit(Some(b));
    lb != Plans.Unlimited && (la == Plans.Unlimited || la > lb)
  }

  /** Every option offered is a plan of the `PLANS` table, by display name, that allows more
      conversations than the current plan; and the only plan offered nothing is the one with
      no plan above it. */
  lemma UpgradesRaiseLimit(currentPlan: String)
    requires currentPlan in Plans.PLANS
    ensures var options := GetUpgradeOptions(currentPlan);
      && (forall i :: 0 <= i < |options| ==>
            exists k :: k in Plans.PLANS && Plans.PLANS[k].name == options[i].name && MoreRoom(k, currentPlan))
      && (options == [] <==> !exists k :: k in Plans.PLANS && MoreRoom(k, currentPlan))
  {
    var options := GetUpgradeOptions(currentPlan);
    assert Plans.PLANS["pro"].name == "Pro" && Plans.PLANS["business"].name == "Business";
    assert currentPlan == "free" || currentPlan == "pro" || currentPlan == "business";
    if currentPlan == "business" {
      forall k | k in Plans.PLANS ensures !MoreRoom(k, currentPlan) {
      }
    } else {
      assert MoreRoom("business", currentPlan);
    }
  }

  /** `usagePercentage` (line 20): 0 for an unlimited plan, otherwise `(usage / limit) * 100`. */
  function ModalPercentage(usage: int, limit: int): (p: Num)
    ensures limit == Plans.Unlimited ==> p == Finite(0.0)
    ensures limit != Plans.Unlimited ==> p == Percentage(usage, limit)
  {
    if limit == Plans.Unlimited then Finite(0.0) else Percentage(usage, limit)
  }

  datatype BadgeVariant = Destructive | Secondary | Outline

  /** The usage badge's variant (line 84): destructive at the limit (as the caller says),
      else secondary strictly above 80 percent, else outline. */
  function Badge(isAtLimit: bool, usage: int, limit: int): (v: BadgeVariant)
    ensures v == Destructive <==> isAtLimit
    ensures v == Secondary <==> !isAtLimit && Above(ModalPercentage(usage, limit), NearLimitPercent)
    ensures limit == Plans.Unlimited ==> v != Secondary
  {
    if isAtLimit then Destructive
    else if Above(ModalPercentage(usage, limit), NearLimitPercent) then Secondary
    else Outline
  }

  /** The dialog's progress bar (line 88): absent for an unlimited plan, otherwise the
      percentage capped at 100. */
  function ModalProgress(usage: int, limit: int): (bar: Option<Num>)
    ensures bar.None? <==> limit == Plans.Unlimited
    ensures bar.Some? && limit > 0 ==> bar.value.Finite? && bar.value.r <= 100.0
  {
    if limit == Plans.Unlimited then None
    else Some(MinWith(ModalPercentage(usage, limit), 100.0))
  }

  /** The "View All Plans" button (lines 118-122) shows exactly when there is an upgrade
      option, that is for the free and pro plans. */
  predicate ShowsViewAllPlans(currentPlan: String) {
    |GetUpgradeOptions(currentPlan)| > 0
  }

  lemma ViewAllPlansIffUpgradable(currentPlan: String)
    ensures ShowsViewAllPlans(currentPlan) <==> currentPlan == "free" || currentPlan == "pro"
  {
  }

  /** The banner uses `>= 80` and the badge `> 80`: at exactly 80 percent (4 of 5) the banner
      warns while the badge stays plain. */
  lemma ThresholdsDiffer()
    ensures WarningBanner(4, 5).Shown? && !WarningBanner(4, 5).atLimit
    ensures Badge(false, 4, 5) == Outline
  {
    PercentageThreshold(4, 5, 80);
  }
}
