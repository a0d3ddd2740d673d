/** Subscription plans and their conversation quotas (lib/stripe.ts and
    lib/subscription-service.ts). */
module Plans {
  import opened Text

  /** One entry of the `PLANS` table. */
  datatype PlanInfo = PlanInfo(name: String, conversationsLimit: int)

  /** The limit that stands for "unlimited". */
  const Unlimited: int := -1

  /** The `PLANS` table of lib/stripe.ts, keyed by plan type. */
  const PLANS: map<String, PlanInfo> := map[
    "free" := PlanInfo("Free", 3),
    "pro" := PlanInfo("Pro", 30),
    "business" := PlanInfo("Business", Unlimited)
  ]

  /** The fields of a stored subscription that decide the plan. */
  datatype Subscription = Subscription(plan: String, status: String)

  /** `getUserPlan`: "free" unless there is a subscription whose status is "active", in
      which case its own plan. */
  function GetUserPlan(subscription: Option<Subscription>): (plan: String)
    ensures subscription.Some? && subscription.value.status == "active" ==> plan == subscription.value.plan
    ensures subscription.None? || subscription.value.status != "active" ==> plan == "free"
  {
    if subscription.None? || subscription.value.status != "active" then "free"
    else subscription.value.plan
  }

  /** `getConversationLimit` against a table that may be missing (`None`): the table's limit
      for a known plan; otherwise the free limit when it is non-zero, else 3; and 3 when
      there is no table. A missing plan (`undefined`, `null`) is `None`; the empty string is
      falsy like it. */
  function ConversationLimitIn(plans: Option<map<String, PlanInfo>>, plan: Option<String>): (limit: int)
    ensures plans.None? ==> limit == 3
    ensures plans.Some? && plan.Some? && plan.value != "" && plan.value in plans.value ==>
              limit == plans.value[plan.value].conversationsLimit
    ensures plans.Some? && (plan.None? || plan.value == "" || plan.value !in plans.value) ==>
              if "free" in plans.value && plans.value["free"].conversationsLimit != 0
              then limit == plans.value["free"].conversationsLimit
              else limit == 3
  {
    if plans.None? then 3
    else if plan.None? || plan.value == "" || plan.value !in plans.value then
      (if "free" in plans.value && plans.value["free"].conversationsLimit != 0
       then plans.value["free"].conversationsLimit else 3)
    else plans.value[plan.value].conversationsLimit
  }

  /** `getConversationLimit(plan)` with the `PLANS` table in place. */
  function ConversationLimit(plan: Option<String>): (limit: int)
    ensures limit == 3 || limit == 30 || limit == Unlimited
  {
    ConversationLimitIn(Some(PLANS), plan)
  }

  /** The limits of lib/stripe.ts, lines 21, 26 and 31, and the free limit for every plan the
      table does not know. */
  lemma PlanLimits(plan: Option<String>)
    ensures ConversationLimit(Some("free")) == 3
    ensures ConversationLimit(Some("pro")) == 30
    ensures ConversationLimit(Some("business")) == Unlimited
    ensures plan.None? || plan.value !in PLANS ==> ConversationLimit(plan) == 3
  {
  }

  /** `canSaveConversation`: an unlimited plan, or usage below the limit. */
  predicate CanSaveConversation(plan: Option<String>, currentUsage: int) {
    var limit := ConversationLimit(plan);
    limit == Unlimited || currentUsage < limit
  }

  /** Per plan, saving is allowed exactly below 3 (free and any plan the table does not
      know), below 30 (pro), and always (business). */
  lemma CanSaveByPlan(plan: Option<String>, currentUsage: int)
    ensures plan == Some("pro") ==> (CanSaveConversation(plan, currentUsage) <==> currentUsage < 30)
    ensures plan == Some("business") ==> CanSaveConversation(plan, currentUsage)
    ensures plan != Some("pro") && plan != Some("business") ==>
              (CanSaveConversation(plan, currentUsage) <==> currentUsage < 3)
  {
    if plan.Some? && plan.value in PLANS {
      assert plan.value == "free" || plan.value == "pro" || plan.value == "business";
    }
  }

  /** Lower usage never takes the permission away. */
  lemma CanSaveAntiMonotone(plan: Option<String>, usage: int, lower: int)
    requires lower <= usage && CanSaveConversation(plan, usage)
    ensures CanSaveConversation(plan, lower)
  {
  }
}
