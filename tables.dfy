/** The field tables of the eight section components, each with the component's
    laws instantiated on it. */
module Tables {
  import opened Json
  import opened KeyPath
  import opened Sections

  const Hideout := Section("hideoutOptions", [
    "fasterBitcoinFarming.enabled", "fasterBitcoinFarming.bitcoinPrice",
    "fasterBitcoinFarming.baseBitcoinTimeMultiplier", "fasterBitcoinFarming.gpuEfficiency",
    "fasterCraftingTime.enabled", "fasterCraftingTime.baseCraftingTimeMultiplier",
    "fasterCraftingTime.hideoutSkillExpFix.enabled",
    "fasterCraftingTime.hideoutSkillExpFix.hideoutSkillExpMultiplier",
    "fasterCraftingTime.fasterMoonshineProduction.enabled",
    "fasterCraftingTime.fasterMoonshineProduction.baseCraftingTimeMultiplier",
    "fasterCraftingTime.fasterPurifiedWaterProduction.enabled",
    "fasterCraftingTime.fasterPurifiedWaterProduction.baseCraftingTimeMultiplier",
    "fasterCraftingTime.fasterCultistCircle.enabled",
    "fasterCraftingTime.fasterCultistCircle.baseCraftingTimeMultiplier",
    "hideoutContainers.enabled", "hideoutContainers.biggerHideoutContainers",
    "hideoutContainers.siccCaseBuff",
    "fuelConsumption.enabled", "fuelConsumption.fuelConsumptionMultiplier",
    "fasterHideoutConstruction.enabled", "fasterHideoutConstruction.hideoutConstructionTimeMultiplier",
    "scavCaseOptions.enabled", "scavCaseOptions.betterRewards", "scavCaseOptions.rebalance",
    "scavCaseOptions.fasterScavcase.enabled", "scavCaseOptions.fasterScavcase.speedMultiplier",
    "allowGymTrainingWithMusclePain", "disableFIRHideout"])

  const Economy := Section("economyOptions", [
    "enabled", "disableFleaMarketCompletely",
    "priceRebalance.enabled", "priceRebalance.itemFixes",
    "pacifistFleaMarket.enabled",
    "pacifistFleaMarket.whitelist.enabled", "pacifistFleaMarket.whitelist.priceMultiplier",
    "pacifistFleaMarket.questKeys.enabled", "pacifistFleaMarket.questKeys.priceMultiplier",
    "pacifistFleaMarket.markedKeys.enabled", "pacifistFleaMarket.markedKeys.priceMultiplier",
    "barterEconomy.enabled", "barterEconomy.cashOffersPercentage", "barterEconomy.barterPriceVariance",
    "barterEconomy.offerItemCount.min", "barterEconomy.offerItemCount.max",
    "barterEconomy.nonStackableCount.min", "barterEconomy.nonStackableCount.max",
    "barterEconomy.itemCountMax", "barterEconomy.unbanBitcoinsForBarters",
    "otherFleaMarketChanges.enabled", "otherFleaMarketChanges.sellingOnFlea",
    "otherFleaMarketChanges.fleaMarketOpenAtLevel", "otherFleaMarketChanges.fleaPricesIncreased",
    "otherFleaMarketChanges.fleaPristineItems",
    "otherFleaMarketChanges.onlyFoundInRaidItemsAllowedForBarters"])

  const Tweaks := Section("otherTweaks", [
    "enabled", "skillExpBuffs", "signalPistolInSpecialSlots", "unexaminedItemsAreBack",
    "fasterExamineTime", "removeBackpackRestrictions", "removeDiscardLimit",
    "reshalaAlwaysHasGoldenTT",
    "biggerAmmoStacks.enabled", "biggerAmmoStacks.stackMultiplier", "biggerAmmoStacks.botAmmoStackFix",
    "questChanges", "removeRaidItemLimits", "biggerCurrencyStacks",
    "currencyStackSizes.euros", "currencyStackSizes.dollars", "currencyStackSizes.gpcoin",
    "currencyStackSizes.roubles", "smallContainersInSpecialSlots"])

  const Traders := Section("traderChanges", [
    "enabled", "betterSalesToTraders", "alternativeCategories",
    "pacifistFence.enabled", "pacifistFence.numberOfFenceOffers",
    "reasonablyPricedCases", "skierUsesEuros", "biggerLimits.enabled", "biggerLimits.multiplier"])

  const Insurance := Section("insuranceChanges", [
    "enabled",
    "traderInsuranceConfig.fence.insurancePriceCoef", "traderInsuranceConfig.fence.returnChancePercent",
    "traderInsuranceConfig.prapor.insurancePriceCoef", "traderInsuranceConfig.prapor.returnChancePercent",
    "traderInsuranceConfig.therapist.insurancePriceCoef",
    "traderInsuranceConfig.therapist.returnChancePercent"])

  const Stash := Section("stashOptions", [
    "biggerStash", "progressiveStash", "lessCurrencyForConstruction",
    "currencyRequirementMultiplier", "easierLoyalty"])

  const SecureContainers := Section("secureContainersOptions", [
    "enabled", "biggerContainers", "CollectorQuestLevelStart", "progressiveContainers.enabled"])

  const Crafting := Section("craftingChanges", [
    "enabled", "craftingRebalance", "additionalCraftingRecipes"])

  /** The precondition shared by the instances. */
  predicate Ready(prev: Json, originalConfig: Json, s: Section) {
    WellFormed(prev) && SectionOf(prev, s).Obj? && Clean(SectionOf(originalConfig, s))
  }

  lemma HideoutComponent(prev: Json, originalConfig: Json, i: nat, value: Json, r: Path)
    requires Ready(prev, originalConfig, Hideout) && i < |Hideout.fields|
    ensures ComponentLaws(prev, originalConfig, Hideout, i, value, r)
  {
    ComponentContract(prev, originalConfig, Hideout, i, value, r);
  }

  lemma EconomyComponent(prev: Json, originalConfig: Json, i: nat, value: Json, r: Path)
    requires Ready(prev, originalConfig, Economy) && i < |Economy.fields|
    ensures ComponentLaws(prev, originalConfig, Economy, i, value, r)
  {
    ComponentContract(prev, originalConfig, Economy, i, value, r);
  }

  lemma TweaksComponent(prev: Json, originalConfig: Json, i: nat, value: Json, r: Path)
    requires Ready(prev, originalConfig, Tweaks) && i < |Tweaks.fields|
    ensures ComponentLaws(prev, originalConfig, Tweaks, i, value, r)
  {
    ComponentContract(prev, originalConfig, Tweaks, i, value, r);
  }

  lemma TradersComponent(prev: Json, originalConfig: Json, i: nat, value: Json, r: Path)
    requires Ready(prev, originalConfig, Traders) && i < |Traders.fields|
    ensures ComponentLaws(prev, originalConfig, Traders, i, value, r)
  {
    ComponentContract(prev, originalConfig, Traders, i, value, r);
  }

  lemma InsuranceComponent(prev: Json, originalConfig: Json, i: nat, value: Json, r: Path)
    requires Ready(prev, originalConfig, Insurance) && i < |Insurance.fields|
    ensures ComponentLaws(prev, originalConfig, Insurance, i, value, r)
  {
    ComponentContract(prev, originalConfig, Insurance, i, value, r);
  }

  lemma StashComponent(prev: Json, originalConfig: Json, i: nat, value: Json, r: Path)
    requires Ready(prev, originalConfig, Stash) && i < |Stash.fields|
    ensures ComponentLaws(prev, originalConfig, Stash, i, value, r)
  {
    ComponentContract(prev, originalConfig, Stash, i, value, r);
  }

  lemma SecureContainersComponent(prev: Json, originalConfig: Json, i: nat, value: Json, r: Path)
    requires Ready(prev, originalConfig, SecureContainers) && i < |SecureContainers.fields|
    ensures ComponentLaws(prev, originalConfig, SecureContainers, i, value, r)
  {
    ComponentContract(prev, originalConfig, SecureContainers, i, value, r);
  }

  /** The crafting table holds three toggles, and its `sectionChanged` is the
      disjunction of their three `changed` flags. */
  lemma CraftingComponent(prev: Json, originalConfig: Json, i: nat, value: Json, r: Path)
    requires Ready(prev, originalConfig, Crafting) && i < |Crafting.fields|
    ensures ComponentLaws(prev, originalConfig, Crafting, i, value, r)
    ensures forall ho, original :: SectionChanged(ho, original, Crafting.fields) <==>
      Changed(ho, original, "enabled") || Changed(ho, original, "craftingRebalance") ||
      Changed(ho, original, "additionalCraftingRecipes")
  {
    ComponentContract(prev, originalConfig, Crafting, i, value, r);
    forall ho, original
      ensures SectionChanged(ho, original, Crafting.fields) <==>
        Changed(ho, original, "enabled") || Changed(ho, original, "craftingRebalance") ||
        Changed(ho, original, "additionalCraftingRecipes")
    {
      var f := Crafting.fields;
      assert f[1..] == ["craftingRebalance", "additionalCraftingRecipes"];
      assert f[1..][1..] == ["additionalCraftingRecipes"];
      assert f[1..][1..][1..] == [];
    }
  }
}
