/**
 * The political fraction of a candidate and the `Converter` name tables
 * (identical in hw.cpp and main.cpp). The two tables are kept as the maps the
 * program builds; the table from codes to names has no entry for `Unknown`,
 * so asking for the name of `Unknown` is outside the converter's domain.
 */
module Fractions {
  import opened Utf8

  datatype Fraction = Edro | Yabloko | Ldpr | NovyeLudi | Kprf | Unknown

  /** Longest fraction name the record reader accepts (MAX_FRACTION_LENGTH). */
  const MaxFractionLength: nat := 20

  const FractionToString: map<Fraction, string> :=
    map[Edro := "EDRO", Yabloko := "YABLOKO", Ldpr := "LDPR", NovyeLudi := "NOVIE LUDI", Kprf := "KPRF"]

  const StringToFraction: map<string, Fraction> :=
    map["EDRO" := Edro, "YABLOKO" := Yabloko, "LDPR" := Ldpr, "NOVIE LUDI" := NovyeLudi, "KPRF" := Kprf]

  /** The five names the converter knows, written out independently of both tables. */
  const KnownNames: set<string> := {"EDRO", "YABLOKO", "LDPR", "NOVIE LUDI", "KPRF"}

  /** Converter::toString: only the five real fractions have a name. */
  function ToString(f: Fraction): (s: string)
    requires f != Unknown
    ensures s in KnownNames
    ensures 1 <= ByteSize(s) == |s| <= MaxFractionLength
  {
    assert f in FractionToString by {
      assert f == Edro || f == Yabloko || f == Ldpr || f == NovyeLudi || f == Kprf;
    }
    AsciiSize(FractionToString[f]);
    FractionToString[f]
  }

  /** Converter::toFraction: any text outside the table falls back to `Unknown`. */
  function ToFraction(s: string): (f: Fraction)
    ensures f != Unknown <==> s in KnownNames
  {
    if s in StringToFraction then StringToFraction[s] else Unknown
  }

  /** Every known code survives a trip through its name. */
  lemma CodeRoundTrip(f: Fraction)
    requires f != Unknown
    ensures ToFraction(ToString(f)) == f
  {
  }

  /** Every recognised name survives a trip through its code. */
  lemma NameRoundTrip(s: string)
    requires ToFraction(s) != Unknown
    ensures ToString(ToFraction(s)) == s
  {
  }

  /** The codes the five names map to, one by one. */
  lemma KnownCodes()
    ensures ToFraction("EDRO") == Edro && ToFraction("YABLOKO") == Yabloko
    ensures ToFraction("LDPR") == Ldpr && ToFraction("NOVIE LUDI") == NovyeLudi
    ensures ToFraction("KPRF") == Kprf
  {
  }
}
