/** The text descriptor of a VMDK: its fields. */
module Descriptors {
  import opened Bytes
  import opened Texts

  datatype ExtentDescriptor = ExtentDescriptor(
    access: string,
    sectors: nat,
    kind: string,
    file: Option<string>,
    offsetSectors: nat)

  datatype Descriptor = Descriptor(
    createType: string,
    parentCid: Option<nat>,
    parentFileNameHint: Option<string>,
    extents: seq<ExtentDescriptor>)
  {
    /** A non-blank parent hint, or a parent CID other than the "no parent" marker. */
    predicate HasParent() {
      || (parentFileNameHint.Some? && !Blank(parentFileNameHint.value))
      || (parentCid.Some? && parentCid.value != U32_LIMIT - 1)
    }
  }

  predicate Blank(s: string) {
    forall i :: 0 <= i < |s| ==> IsWhitespace(s[i])
  }
}
