/**
 The four panels of merge mode (upload, file list, progress, download) and the
 `show*View` operations, each of which hides three panels and reveals one.
 */
module Views {

  datatype View = Upload | Files | Loading | Download

  /** Which panels are visible: `true` where the panel lacks the `hidden` class. */
  datatype Panels = Panels(upload: bool, files: bool, loading: bool, download: bool)

  function Visible(p: Panels): set<View> {
    (if p.upload then {Upload} else {})
    + (if p.files then {Files} else {})
    + (if p.loading then {Loading} else {})
    + (if p.download then {Download} else {})
  }

  /** `showUploadView`, `showFilesView`, `showLoadingView`, `showDownloadView`: afterwards
      exactly one panel is visible, the requested one, whatever was visible before. */
  function ShowOnly(v: View): (p: Panels)
    ensures Visible(p) == {v}
  {
    Panels(v == Upload, v == Files, v == Loading, v == Download)
  }

  /** Switching to maker mode hides the upload and file-list panels and leaves the
      progress and download panels as they were. */
  function HideEntryPanels(p: Panels): (q: Panels)
    ensures Visible(q) == Visible(p) - {Upload, Files}
  {
    p.(upload := false, files := false)
  }
}
