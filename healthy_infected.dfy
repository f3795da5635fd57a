/** The two classification flows of `App/healthy_infected.py`. The
    classifier (`Classification.classification_process`) and the database
    lookups (`DataFetch.healthy_dataFetch`, `DataFetch.infected_dataFetch`)
    are parameters: `classify(modelName, image)` gives a class label and
    `fetch(name)` the stored data for a name. */
module HealthyInfected {
  import opened Labels

  /** Model that names the crop of a healthy leaf. */
  const HealthyCropModel: string := "healthy_crop"

  /** Model that names the crop of an infected leaf; its answer, lower-cased,
      names the model that identifies the disease. */
  const CropTypeModel: string := "crop_type"

  /** A flow's answer: the formatted name, the data fetched for it, and the
      model names the classifier was asked with, in order. */
  datatype Classified<D> = Classified(name: string, data: D, modelsAsked: seq<string>)

  /** `Infected.classification_app`: one classifier call. */
  function ClassificationApp<I>(classify: (string, I) -> string, image: I, modelName: string): string
  {
    classify(modelName, image)
  }

  /** `Healthy.healthy_crop_classify`. */
  function HealthyCropClassify<I, D>(image: I, classify: (string, I) -> string, fetch: string -> D): (r: Classified<D>)
    ensures r.modelsAsked == [HealthyCropModel]
    ensures r.name <= classify(HealthyCropModel, image) && Separator !in r.name
    ensures |r.name| < |classify(HealthyCropModel, image)| ==>
      classify(HealthyCropModel, image)[|r.name|] == Separator
    ensures r.data == fetch(r.name)
  {
    var className := classify(HealthyCropModel, image);
    var formattedClassName := FirstSegment(className);
    Classified(formattedClassName, fetch(formattedClassName), [HealthyCropModel])
  }

  /** A label without a separator is reported and looked up as it is. */
  lemma HealthyPlainLabel<I, D>(image: I, classify: (string, I) -> string, fetch: string -> D)
    requires Separator !in classify(HealthyCropModel, image)
    ensures HealthyCropClassify(image, classify, fetch).name == classify(HealthyCropModel, image)
  {
  }

  /** The healthy crop name is a fixed point of the formatting. */
  lemma HealthyNameIsFormatted<I, D>(image: I, classify: (string, I) -> string, fetch: string -> D)
    ensures var n := HealthyCropClassify(image, classify, fetch).name; FirstSegment(n) == n
  {
  }

  /** `Infected.infected_crop_classify`. */
  function InfectedCropClassify<I, D>(image: I, classify: (string, I) -> string, fetch: string -> D): (r: Classified<D>)
    ensures |r.modelsAsked| == 2 && r.modelsAsked[0] == CropTypeModel
    ensures r.modelsAsked[1] == Lower(classify(CropTypeModel, image))
    ensures var disease := classify(r.modelsAsked[1], image);
      r.name == FormatDiseaseName(disease) && |r.name| == |disease| && Separator !in r.name
    ensures r.data == fetch(r.name)
  {
    var cropName := ClassificationApp(classify, image, CropTypeModel);
    var cropTypeName := Lower(cropName);
    var diseaseName := ClassificationApp(classify, image, cropTypeName);
    var formattedDiseaseName := FormatDiseaseName(diseaseName);
    FormatDiseaseNameShape(diseaseName);
    Classified(formattedDiseaseName, fetch(formattedDiseaseName), [CropTypeModel, cropTypeName])
  }

  /** The second model name is already lower-case (lower-casing it again
      changes nothing) and is as long as the crop label it came from. */
  lemma InfectedModelNameIsLowerCase<I, D>(image: I, classify: (string, I) -> string, fetch: string -> D)
    ensures var m := InfectedCropClassify(image, classify, fetch).modelsAsked[1];
      Lower(m) == m && |m| == |classify(CropTypeModel, image)|
  {
    LowerIdempotent(classify(CropTypeModel, image));
  }

  /** The disease name the infected flow reports is already formatted:
      formatting it again changes nothing. */
  lemma InfectedNameIsFormatted<I, D>(image: I, classify: (string, I) -> string, fetch: string -> D)
    ensures var n := InfectedCropClassify(image, classify, fetch).name; FormatDiseaseName(n) == n
  {
    var r := InfectedCropClassify(image, classify, fetch);
    FormatDiseaseNameIdempotent(classify(r.modelsAsked[1], image));
  }
}
