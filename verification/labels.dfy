/** The twelve field labels of the header report: each is the text before
    the `{}` placeholder of its line, padded with spaces to 21 characters.
    The consistent-time label has no colon. */
module ReportLabels {
  /** Every field label is padded to this many characters. */
  const LabelWidth: nat := 21

  const ChecksumLabel: string := "Header checksum:     "
  const SignatureLabel: string := "Signature:           "
  const FormatVersionLabel: string := "File format version: "
  const FileTypeLabel: string := "File type:           "
  const PageSizeLabel: string := "Page size:           "
  const DbTimeLabel: string := "DB time:             "
  const WindowsVersionLabel: string := "Windows version:     "
  const CreationLabel: string := "Creation time:       "
  const AttachLabel: string := "Attach time:         "
  const DetachLabel: string := "Detach time:         "
  const ConsistentLabel: string := "Consistent time      "
  const RecoveryLabel: string := "Recovery time:       "

  /** The labels in the order the report lists its field lines. */
  const Labels: seq<string> := [
    ChecksumLabel, SignatureLabel, FormatVersionLabel,
    FileTypeLabel, PageSizeLabel, DbTimeLabel,
    WindowsVersionLabel, CreationLabel, AttachLabel,
    DetachLabel, ConsistentLabel, RecoveryLabel]

  /** A label fills the label column and stays on one line. */
  predicate LabelShape(name: string)
  {
    |name| == LabelWidth && '\n' !in name
  }

  /** Every label is 21 characters long and holds no line break. */
  lemma LabelsShape()
    ensures forall i :: 0 <= i < |Labels| ==> |Labels[i]| == LabelWidth && '\n' !in Labels[i]
  {
    ChecksumShape();
    SignatureShape();
    FormatVersionShape();
    FileTypeShape();
    PageSizeShape();
    DbTimeShape();
    WindowsVersionShape();
    CreationShape();
    AttachShape();
    DetachShape();
    ConsistentShape();
    RecoveryShape();
  }

  lemma ChecksumShape() ensures LabelShape(ChecksumLabel) {}
  lemma SignatureShape() ensures LabelShape(SignatureLabel) {}
  lemma FormatVersionShape() ensures LabelShape(FormatVersionLabel) {}
  lemma FileTypeShape() ensures LabelShape(FileTypeLabel) {}
  lemma PageSizeShape() ensures LabelShape(PageSizeLabel) {}
  lemma DbTimeShape() ensures LabelShape(DbTimeLabel) {}
  lemma WindowsVersionShape() ensures LabelShape(WindowsVersionLabel) {}
  lemma CreationShape() ensures LabelShape(CreationLabel) {}
  lemma AttachShape() ensures LabelShape(AttachLabel) {}
  lemma DetachShape() ensures LabelShape(DetachLabel) {}
  lemma ConsistentShape() ensures LabelShape(ConsistentLabel) {}
  lemma RecoveryShape() ensures LabelShape(RecoveryLabel) {}
}
