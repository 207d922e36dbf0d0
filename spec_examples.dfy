/** The unit tests of the spec ordering (src/tests/data/specs.test.ts), each
    stated as a lemma about the model. */
module SpecExamples {
  import opened Types
  import opened SpecOrdering

  /** Wavelengths 0.6563, 0.4861 and 0.5876 are listed as [1, 2, 0]. */
  lemma WavelengthOrder(wavelengths: seq<SystemSpec>)
    requires wavelengths == [SystemSpec(0.6563, "µm"), SystemSpec(0.4861, "µm"), SystemSpec(0.5876, "µm")]
    ensures StableOrder(wavelengths) == [1, 2, 0]
  {
    var order := [1, 2, 0];
    assert 0 == order[2] && 1 == order[0] && 2 == order[1];
    StableOrderUnique(wavelengths, order);
  }

  /** Field specs 5.0 and 0.0 are listed as [1, 0]. */
  lemma FieldOrder(fieldSpecs: seq<FieldSpec>)
    requires fieldSpecs == [FieldSpec(5.0, "deg", Angle), FieldSpec(0.0, "deg", Angle)]
    ensures StableOrder([fieldSpecs[0].AsSystemSpec(), fieldSpecs[1].AsSystemSpec()]) == [1, 0]
  {
    var specs := [fieldSpecs[0].AsSystemSpec(), fieldSpecs[1].AsSystemSpec()];
    var order := [1, 0];
    assert 0 == order[1] && 1 == order[0];
    StableOrderUnique(specs, order);
  }

  /** Equal values keep their original order. */
  lemma TiesKeepOrder(specs: seq<SystemSpec>)
    requires specs == [SystemSpec(2.0, "deg"), SystemSpec(1.0, "deg"), SystemSpec(2.0, "mm")]
    ensures StableOrder(specs) == [1, 0, 2]
  {
    var order := [1, 0, 2];
    assert 0 == order[1] && 1 == order[0] && 2 == order[2];
    StableOrderUnique(specs, order);
  }
}
