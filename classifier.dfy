/**
 * The category rule: a file is filed under a category by looking for keywords
 * in its lower-cased name, "impacto" before "ambiental".
 */
module Classifier {
  import opened Text

  datatype Category = ImpactoSocial | IndicadoresAmbientales | OtrosDatos

  /** The category's name as it is shown and stored. */
  function Label(c: Category): string {
    match c
    case ImpactoSocial => "Impacto Social"
    case IndicadoresAmbientales => "Indicadores Ambientales"
    case OtrosDatos => "Otros Datos"
  }

  /** The first keyword that files a name under Impacto Social; the second under Indicadores Ambientales. */
  const ImpactKeyword := "impacto"
  const EnvironmentKeyword := "ambiental"

  /** `name` (case-insensitively) has `keyword` somewhere in it. */
  ghost predicate Mentions(name: string, keyword: string) {
    exists i :: OccursAt(Lower(name), keyword, i)
  }

  /** The `if/elif/else` on the lower-cased name. */
  function Classify(name: string): Category {
    if Contains(Lower(name), ImpactKeyword) then ImpactoSocial
    else if Contains(Lower(name), EnvironmentKeyword) then IndicadoresAmbientales
    else OtrosDatos
  }

  /** Total and ordered: the first keyword found in the lower-cased name decides, and the default is Otros Datos. */
  lemma ClassifySpec(name: string)
    ensures Classify(name) == ImpactoSocial <==> Mentions(name, ImpactKeyword)
    ensures Classify(name) == IndicadoresAmbientales <==> !Mentions(name, ImpactKeyword) && Mentions(name, EnvironmentKeyword)
    ensures Classify(name) == OtrosDatos <==> !Mentions(name, ImpactKeyword) && !Mentions(name, EnvironmentKeyword)
  {
    ContainsSpec(Lower(name), ImpactKeyword);
    ContainsSpec(Lower(name), EnvironmentKeyword);
  }

  /** Labels are distinct, so the stored string identifies the category. */
  lemma LabelInjective(c: Category, d: Category)
    requires Label(c) == Label(d)
    ensures c == d
  {
  }

  /** Case does not matter: upper-casing the name leaves its category unchanged. */
  lemma ClassifyIgnoresCase(name: string)
    ensures Classify(Upper(name)) == Classify(name)
  {
    LowerOfUpper(name);
  }

  /** A name with both keywords is Impacto Social: the first rule wins. */
  lemma ImpactWinsOverEnvironment(name: string)
    requires Mentions(name, ImpactKeyword) && Mentions(name, EnvironmentKeyword)
    ensures Classify(name) == ImpactoSocial
  {
    ClassifySpec(name);
  }

  /** A keyword anywhere in the name is found, whatever surrounds it. */
  lemma KeywordInside(prefix: string, keyword: string, suffix: string)
    requires Lower(keyword) == keyword
    ensures Mentions(prefix + keyword + suffix, keyword)
  {
    var name := prefix + keyword + suffix;
    var i := |prefix|;
    assert Lower(name)[i..i + |keyword|] == Lower(keyword) by {
      forall j | 0 <= j < |keyword|
        ensures Lower(name)[i..i + |keyword|][j] == Lower(keyword)[j]
      {
        assert name[i + j] == keyword[j];
      }
    }
    assert OccursAt(Lower(name), keyword, i);
  }

  // The examples below take the name as a parameter fixed by `requires`: stated
  // on the literal itself, `Classify` would be evaluated eagerly on the literal,
  // which is far more costly for the verifier than the occurrence proofs here.

  lemma ClassifyImpactExample(name: string)
    requires name == "reporte_impacto_ambiental.csv"
    ensures Classify(name) == ImpactoSocial
  {
    LowerOfLowerCase(name);
    assert name[8..15] == ImpactKeyword by {
      forall j | 0 <= j < 7 ensures name[8..15][j] == ImpactKeyword[j] {
        assert name[8 + j] == ImpactKeyword[j];
      }
    }
    assert OccursAt(Lower(name), ImpactKeyword, 8);
    ClassifySpec(name);
  }

  /** A name missing some letter of a keyword does not mention that keyword. */
  lemma LacksKeyword(name: string, keyword: string, j: nat)
    requires Lower(name) == name
    requires j < |keyword| && keyword[j] !in name
    ensures !Mentions(name, keyword)
  {
    MissingCharNotContained(name, keyword, j);
  }

  lemma ClassifyEnvironmentExample(name: string)
    requires name == "ambiental_q1.csv"
    ensures Classify(name) == IndicadoresAmbientales
  {
    LowerOfLowerCase(name);
    assert name[0..9] == EnvironmentKeyword by {
      forall j | 0 <= j < 9 ensures name[0..9][j] == EnvironmentKeyword[j] {
        assert name[j] == EnvironmentKeyword[j];
      }
    }
    assert OccursAt(Lower(name), EnvironmentKeyword, 0);
    LacksKeyword(name, ImpactKeyword, 2);
    ClassifySpec(name);
  }

  lemma ClassifyOtherExample(name: string)
    requires name == "social_abril.csv"
    ensures Classify(name) == OtrosDatos
  {
    LowerOfLowerCase(name);
    LacksKeyword(name, ImpactKeyword, 2);
    LacksKeyword(name, EnvironmentKeyword, 1);
    ClassifySpec(name);
  }
}
