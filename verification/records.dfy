/**
 * One row of the comarca dataset (one comarca in one year), the metrics the
 * charts derive from a single row, and the year/province filter that most
 * charts apply before drawing.
 *
 * Every numeric column is a `Num`: a column the dataset lacks reads as
 * `undefined`, which behaves as a non-finite number.
 */
module Records {
  import opened Values

  /** The five age bands of the population pyramid, youngest first. */
  datatype Band = Age0To15 | Age16To24 | Age25To44 | Age45To64 | Age64Plus

  /** Population of one sex per age band (`poblacio_masculina_0_15`, ...). */
  datatype Cohort = Cohort(a0To15: Num, a16To24: Num, a25To44: Num, a45To64: Num, a64To120: Num)
  {
    function At(b: Band): Num {
      match b
      case Age0To15 => a0To15
      case Age16To24 => a16To24
      case Age25To44 => a25To44
      case Age45To64 => a45To64
      case Age64Plus => a64To120
    }
  }

  datatype Record = Record(
    any: int,
    comarca: string,
    provincia: string,
    poblacio: Num,
    poblacioTotal: Num,
    superficieKm2: Num,
    masculina: Cohort,
    femenina: Cohort,
    tonesSelectiva: Num,           // tones_recollida_selectiva
    tonesNoSelectiva: Num,         // tones_recollida_no_selectiva
    kgPerHabDia: Num,              // kg_per_hab_dia
    kgSelectivaPerHabDia: Num,     // kg_selectiva_per_hab_dia
    kgNoSelectivaPerHabDia: Num,   // kg_no_selectiva_per_hab_dia
    percentatgeSelectiva: Num,     // percentatge_selectiva
    totalRecollidaT: Num,          // total_recollida_t
    recollidaSelectivaT: Num,      // recollida_selectiva_t
    recollidaNoSelectivaT: Num)    // recollida_no_selectiva_t

  function ComarcaOf(r: Record): string {
    r.comarca
  }

  function ProvinciaOf(r: Record): string {
    r.provincia
  }

  /** The province selector's "all provinces" value. */
  const Totes := "Totes"

  /** `select.value || 'Totes'`: an empty selection means every province. */
  function ProvinceOrTotes(value: string): (p: string)
    ensures value == "" ==> p == Totes
    ensures value != "" ==> p == value
  {
    if value == "" then Totes else value
  }

  /** `d.any === year && (p === 'Totes' || d.provincia === p)`. */
  predicate InSelection(r: Record, year: int, p: string) {
    r.any == year && (p == Totes || r.provincia == p)
  }

  /**
   * The rows a year/province filter keeps, in their original order.
   */
  function SelectRows(data: seq<Record>, year: int, p: string): (rows: seq<Record>)
    ensures |rows| <= |data|
    ensures forall r :: r in rows <==> r in data && InSelection(r, year, p)
  {
    if data == [] then []
    else
      assert data == [data[0]] + data[1..];
      (if InSelection(data[0], year, p) then [data[0]] else []) + SelectRows(data[1..], year, p)
  }

  /** The numeric columns of a record, by the names the charts read them by. */
  const FieldNames: set<string> := {"any", "poblacio", "poblacio_total", "superficie_km2",
    "tones_recollida_selectiva", "tones_recollida_no_selectiva",
    "kg_per_hab_dia", "kg_selectiva_per_hab_dia", "kg_no_selectiva_per_hab_dia",
    "percentatge_selectiva", "total_recollida_t", "recollida_selectiva_t", "recollida_no_selectiva_t",
    "poblacio_masculina_0_15", "poblacio_masculina_16_24", "poblacio_masculina_25_44",
    "poblacio_masculina_45_64", "poblacio_masculina_64_120",
    "poblacio_femenina_0_15", "poblacio_femenina_16_24", "poblacio_femenina_25_44",
    "poblacio_femenina_45_64", "poblacio_femenina_64_120"}

  /**
   * `d[name]` as a number: a numeric column reads its value; the name of a
   * text column (`comarca`, `provincia`) or of no column reads a value that
   * `Number.isFinite` rejects.
   */
  function Field(r: Record, name: string): (x: Num)
    ensures name == "kg_selectiva_per_hab_dia" ==> x == r.kgSelectivaPerHabDia
    ensures name == "kg_no_selectiva_per_hab_dia" ==> x == r.kgNoSelectivaPerHabDia
    ensures name == "kg_per_hab_dia" ==> x == r.kgPerHabDia
    ensures name == "tones_recollida_selectiva" ==> x == r.tonesSelectiva
    ensures name == "any" ==> x == Fin(r.any as real)
    ensures name == "poblacio_masculina_0_15" ==> x == r.masculina.a0To15
    ensures name == "poblacio_femenina_64_120" ==> x == r.femenina.a64To120
    ensures name !in FieldNames ==> x == NonFinite
  {
    match name
    case "any" => Fin(r.any as real)
    case "poblacio" => r.poblacio
    case "poblacio_total" => r.poblacioTotal
    case "superficie_km2" => r.superficieKm2
    case "tones_recollida_selectiva" => r.tonesSelectiva
    case "tones_recollida_no_selectiva" => r.tonesNoSelectiva
    case "kg_per_hab_dia" => r.kgPerHabDia
    case "kg_selectiva_per_hab_dia" => r.kgSelectivaPerHabDia
    case "kg_no_selectiva_per_hab_dia" => r.kgNoSelectivaPerHabDia
    case "percentatge_selectiva" => r.percentatgeSelectiva
    case "total_recollida_t" => r.totalRecollidaT
    case "recollida_selectiva_t" => r.recollidaSelectivaT
    case "recollida_no_selectiva_t" => r.recollidaNoSelectivaT
    case "poblacio_masculina_0_15" => r.masculina.a0To15
    case "poblacio_masculina_16_24" => r.masculina.a16To24
    case "poblacio_masculina_25_44" => r.masculina.a25To44
    case "poblacio_masculina_45_64" => r.masculina.a45To64
    case "poblacio_masculina_64_120" => r.masculina.a64To120
    case "poblacio_femenina_0_15" => r.femenina.a0To15
    case "poblacio_femenina_16_24" => r.femenina.a16To24
    case "poblacio_femenina_25_44" => r.femenina.a25To44
    case "poblacio_femenina_45_64" => r.femenina.a45To64
    case "poblacio_femenina_64_120" => r.femenina.a64To120
    case _ => NonFinite
  }

  /** `(d.tones_recollida_selectiva || 0) + (d.tones_recollida_no_selectiva || 0)`. */
  function TonnesTotal(r: Record): real {
    Or(r.tonesSelectiva, 0.0) + Or(r.tonesNoSelectiva, 0.0)
  }

  /**
   * The per-record selective share in percent. A total that is not positive
   * gives 0, not NaN; a positive total divides the raw selective tonnes, so a
   * missing selective figure beside a positive non-selective one gives NaN.
   */
  function PercentSelectiva(r: Record): (x: Num)
    ensures TonnesTotal(r) <= 0.0 ==> x == Fin(0.0)
    ensures TonnesTotal(r) > 0.0 ==> (x.Fin? <==> r.tonesSelectiva.Fin?)
    ensures TonnesTotal(r) > 0.0 && x.Fin? ==> x.v * TonnesTotal(r) == 100.0 * r.tonesSelectiva.v
  {
    var total := TonnesTotal(r);
    if total > 0.0 then Mul(Div(r.tonesSelectiva, Fin(total)), Fin(100.0)) else Fin(0.0)
  }

  /** With non-negative tonnages the share is a percentage. */
  lemma PercentSelectivaBounds(r: Record)
    requires r.tonesSelectiva.Fin? ==> r.tonesSelectiva.v >= 0.0
    requires r.tonesNoSelectiva.Fin? ==> r.tonesNoSelectiva.v >= 0.0
    ensures PercentSelectiva(r).Fin? ==> 0.0 <= PercentSelectiva(r).v <= 100.0
  {
    var total := TonnesTotal(r);
    if total > 0.0 && r.tonesSelectiva.Fin? {
      var s := r.tonesSelectiva.v;
      assert 0.0 <= s <= total;
      assert s / total <= 1.0;
    }
  }
}
