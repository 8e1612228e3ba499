/**
 The fertilizer advice shown after a crop is predicted: a constant table from
 crop label to advice, read with an exact-key lookup that falls back to a
 generic recommendation. The predicted label itself comes from a trained
 classifier, which is not part of this model: here it is any string.
 */
module Fertilizer {
  import opened Strings

  /** The advice given for every label the table does not list. */
  const Default := "Balanced NPK recommended"

  const Table: map<string, string> := map[
    "rice" := "Urea (N), DAP (P), MOP (K)",
    "wheat" := "Urea, DAP, Potash",
    "maize" := "DAP, MOP, Nitrogen",
    "sugarcane" := "NPK 12:32:16",
    "cotton" := "NPK 10:26:26",
    "barley" := "Urea, Phosphate fertilizers",
    "millet" := "Nitrogen-rich fertilizers",
    "coffee" := "Compost + NPK",
    "tea" := "Organic manure + NPK",
    "pulses" := "Phosphorus-rich fertilizers"
  ]

  /** The generic advice is not the advice of any listed crop. */
  lemma DefaultNotListed()
    ensures Default !in Table.Values
  {
  }

  /** `fertilizers.get(crop, 'Balanced NPK recommended')`: a listed label gets
      its own advice; the generic advice is given exactly when the label is
      not listed. */
  function FertilizerFor(crop: string): (advice: string)
    ensures crop in Table ==> advice == Table[crop]
    ensures advice == Default <==> crop !in Table
    ensures advice in Table.Values || advice == Default
  {
    DefaultNotListed();
    if crop in Table then Table[crop] else Default
  }

  /** The advice for each of the ten listed crops. */
  lemma ListedAdvice()
    ensures FertilizerFor("rice") == "Urea (N), DAP (P), MOP (K)"
    ensures FertilizerFor("wheat") == "Urea, DAP, Potash"
    ensures FertilizerFor("maize") == "DAP, MOP, Nitrogen"
    ensures FertilizerFor("sugarcane") == "NPK 12:32:16"
    ensures FertilizerFor("cotton") == "NPK 10:26:26"
    ensures FertilizerFor("barley") == "Urea, Phosphate fertilizers"
    ensures FertilizerFor("millet") == "Nitrogen-rich fertilizers"
    ensures FertilizerFor("coffee") == "Compost + NPK"
    ensures FertilizerFor("tea") == "Organic manure + NPK"
    ensures FertilizerFor("pulses") == "Phosphorus-rich fertilizers"
  {
  }

  /** Every label outside the ten listed crops gets the generic advice, and
      only those. */
  lemma DefaultExactlyForUnlisted(crop: string)
    ensures FertilizerFor(crop) == Default <==>
      crop !in {"rice", "wheat", "maize", "sugarcane", "cotton",
                "barley", "millet", "coffee", "tea", "pulses"}
  {
  }

  /** Every listed label is written in small letters only. */
  lemma ListedLabelsLowerCase(crop: string)
    requires crop in Table
    ensures forall i :: 0 <= i < |crop| ==> IsLowerAscii(crop[i])
  {
  }

  /** The lookup is exact, not case-insensitive: a label with any capital
      letter gets the generic advice. */
  lemma CapitalMeansDefault(crop: string, i: nat)
    requires i < |crop| && IsUpperAscii(crop[i])
    ensures FertilizerFor(crop) == Default
  {
  }

  /** The label is upper-cased only for display, never looked up in that
      form. Were the displayed label looked up, it would not be found: for
      every listed crop the upper-cased label gets the generic advice. So the
      lookup cannot be read as case-insensitive. */
  lemma DisplayedLabelNotListed(crop: string)
    requires crop in Table
    ensures FertilizerFor(Upper(crop)) == Default
  {
    ListedLabelsLowerCase(crop);
    assert IsUpperAscii(Upper(crop)[0]);
    CapitalMeansDefault(Upper(crop), 0);
  }

  lemma UpperRiceGetsDefault()
    ensures FertilizerFor("RICE") == Default
    ensures FertilizerFor("unknowncrop") == Default
  {
  }
}
