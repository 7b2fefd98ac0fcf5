/** The name given to a downloaded spreadsheet. */
module CsvDownloader {
  import opened Text

  const Extension := ".xlsx"

  /** The file name with `.xlsx` appended, unless it already ends with it (case-sensitively). */
  function ExcelFilename(filename: string): (name: string)
    ensures EndsWith(name, Extension)
    ensures EndsWith(filename, Extension) ==> name == filename
    ensures !EndsWith(filename, Extension) ==> name == filename + Extension
  {
    if EndsWith(filename, Extension) then filename else filename + Extension
  }

  /** Naming a file that was already named changes nothing. */
  lemma ExcelFilenameIdempotent(filename: string)
    ensures ExcelFilename(ExcelFilename(filename)) == ExcelFilename(filename)
  {
  }

  /** The name is always kept as a prefix: nothing the user typed is lost. */
  lemma ExcelFilenameKeepsName(filename: string)
    ensures StartsWith(ExcelFilename(filename), filename)
  {
    var name := ExcelFilename(filename);
    assert name[..|filename|] == filename;
  }

  /** The test is case-sensitive: an upper-case extension gets a second one. */
  lemma UpperCaseExtensionIsExtended()
    ensures ExcelFilename("report.XLSX") == "report.XLSX.xlsx"
    ensures ExcelFilename("report.xlsx") == "report.xlsx"
  {
    assert !EndsWith("report.XLSX", Extension) by {
      assert "report.XLSX"[6..] != Extension;
    }
  }
}
