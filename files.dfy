/** The attachment helpers of `static/js/modules/files.js`: the icon chosen
    for a file name and the unit `formatFileSize` labels a size with. */
module Files {
  import opened Common

  /** The icon table of `getFileIcon`, as (extension, icon) pairs. */
  const Icons: seq<(string, string)> := [
    ("pdf", "\U{1F4C4}"),
    ("doc", "\U{1F4DD}"),
    ("docx", "\U{1F4DD}"),
    ("xls", "\U{1F4CA}"),
    ("xlsx", "\U{1F4CA}"),
    ("ppt", "\U{1F4D1}"),
    ("pptx", "\U{1F4D1}"),
    ("jpg", "\U{1F5BC}\U{FE0F}"),
    ("jpeg", "\U{1F5BC}\U{FE0F}"),
    ("png", "\U{1F5BC}\U{FE0F}"),
    ("gif", "\U{1F5BC}\U{FE0F}"),
    ("txt", "\U{1F4CB}"),
    ("zip", "\U{1F5C4}\U{FE0F}"),
    ("rar", "\U{1F5C4}\U{FE0F}"),
    ("mp3", "\U{1F3B5}"),
    ("mp4", "\U{1F3AC}")
  ]

  /** The folder icon for every other extension. */
  const DefaultIcon: string := "\U{1F4C1}"

  /** `icons[extension]`: the icon of the first entry for the key. */
  function LookupIcon(table: seq<(string, string)>, ext: string): (r: Option<string>)
    ensures r.Some? <==> exists k :: 0 <= k < |table| && table[k].0 == ext
    ensures r.Some? ==> exists k :: 0 <= k < |table| && table[k] == (ext, r.value)
  {
    if table == [] then None
    else if table[0].0 == ext then Some(table[0].1)
    else
      var r := LookupIcon(table[1..], ext);
      assert forall k :: 0 <= k < |table[1..]| ==> table[1..][k] == table[k + 1];
      r
  }

  /** `getFileIcon`: `icons[extension] || '📁'`. */
  function FileIcon(filename: string): string
  {
    match LookupIcon(Icons, Extension(filename))
    case None => DefaultIcon
    case Some(icon) => if icon == "" then DefaultIcon else icon
  }

  /** A listed extension, in any letter case, gets its icon; any other gets
      the folder; the icon never depends on the letter case of the name. */
  lemma {:induction false} FileIconSpec(filename: string)
    ensures (exists k :: 0 <= k < |Icons| && Icons[k].0 == Extension(filename)) ==>
      exists k :: 0 <= k < |Icons| && Icons[k] == (Extension(filename), FileIcon(filename))
    ensures (forall k :: 0 <= k < |Icons| ==> Icons[k].0 != Extension(filename)) ==>
      FileIcon(filename) == DefaultIcon
    ensures FileIcon(Lower(filename)) == FileIcon(filename)
  {
    ExtensionSpec(filename);
    var r := LookupIcon(Icons, Extension(filename));
    if r.Some? {
      var k :| 0 <= k < |Icons| && Icons[k] == (Extension(filename), r.value);
      assert Icons[k].1 != "";
    }
  }

  /** For example "a.pdf" and "A.PDF" both get the document icon. */
  lemma {:induction false} FileIconExamples()
    ensures FileIcon("a.pdf") == "\U{1F4C4}"
    ensures FileIcon("A.PDF") == "\U{1F4C4}"
  {
    PdfExtension();
    UpperPdfExtension();
    PdfIcon("a.pdf");
    PdfIcon("A.PDF");
  }

  lemma {:induction false} PdfIcon(filename: string)
    requires Extension(filename) == "pdf"
    ensures FileIcon(filename) == "\U{1F4C4}"
  {
    assert Icons[0] == ("pdf", "\U{1F4C4}");
  }

  lemma {:induction false} UpperPdfExtension()
    ensures Extension("A.PDF") == "pdf"
  {
    SplitSep("A", "PDF", '.');
    SplitNoSep("PDF", '.');
    assert "A.PDF" == "A" + ['.'] + "PDF";
    assert Lower("PDF") == "pdf";
  }

  lemma {:induction false} PdfExtension()
    ensures Extension("a.pdf") == "pdf"
  {
    SplitSep("a", "pdf", '.');
    SplitNoSep("pdf", '.');
    assert "a.pdf" == "a" + ['.'] + "pdf";
    assert Lower("pdf") == "pdf";
  }

  // ---------------------------------------------------------------------
  // File sizes
  // ---------------------------------------------------------------------

  /** The units of `formatFileSize`; a size needing a fifth unit gets the
      label `undefined`. */
  const SizeUnits: seq<string> := ["Bytes", "KB", "MB", "GB"]

  function Power1024(i: nat): (p: nat)
    ensures p >= 1
  {
    if i == 0 then 1 else 1024 * Power1024(i - 1)
  }

  /** `Math.floor(Math.log(bytes) / Math.log(1024))` computed exactly: the
      largest power of 1024 not above a positive size. */
  function SizeExponent(bytes: nat): (i: nat)
    requires bytes >= 1
    ensures Power1024(i) <= bytes < Power1024(i + 1)
  {
    if bytes < 1024 then 0 else 1 + SizeExponent(bytes / 1024)
  }

  /** The label `formatFileSize` puts on a size: "0 Bytes" for an empty
      file, otherwise the unit chosen by the exponent (`None` where the
      table has no entry). The number in front of the unit is a rounded
      float and is not part of this model. */
  datatype SizeLabel = ZeroBytes | Scaled(exponent: nat, unit: Option<string>)

  function FileSizeLabel(bytes: nat): SizeLabel
  {
    if bytes == 0 then ZeroBytes
    else
      var i := SizeExponent(bytes);
      Scaled(i, if i < |SizeUnits| then Some(SizeUnits[i]) else None)
  }

  /** The size 0 is "0 Bytes"; below 1024 the unit is Bytes, below 1024²
      KB, and a size of 1024⁴ bytes or more has no unit. */
  lemma {:induction false} FileSizeLabelSpec(bytes: nat)
    ensures FileSizeLabel(bytes).ZeroBytes? <==> bytes == 0
    ensures 1 <= bytes < 1024 ==> FileSizeLabel(bytes) == Scaled(0, Some("Bytes"))
    ensures 1024 <= bytes < 1024 * 1024 ==> FileSizeLabel(bytes) == Scaled(1, Some("KB"))
    ensures bytes >= Power1024(4) ==> FileSizeLabel(bytes).Scaled? && FileSizeLabel(bytes).unit.None?
  {
    if bytes >= 1 {
      var i := SizeExponent(bytes);
      if bytes >= Power1024(4) && i < 4 {
        PowerMonotone(i + 1, 4);
      }
      if 1024 <= bytes < 1024 * 1024 {
        assert Power1024(1) == 1024 && Power1024(2) == 1024 * 1024;
        if i == 0 {
        } else if i >= 2 {
          PowerMonotone(2, i);
        }
      }
    }
  }

  lemma {:induction false} PowerMonotone(i: nat, j: nat)
    requires i <= j
    ensures Power1024(i) <= Power1024(j)
    decreases j
  {
    if i < j {
      PowerMonotone(i, j - 1);
    }
  }
}
