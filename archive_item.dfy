/**
 * ArchiveItem: one archive file of the private archives directory as the
 * list shows it, with an in-memory view counter and the password loaded
 * from the password store.
 */
module ArchiveItems {
  import opened Common
  import opened Text

  /** What java.io.File reports about one entry of the archives directory. */
  datatype FileInfo = FileInfo(name: string, length: nat, lastModified: int, isFile: bool)

  /**
   * `getFormattedSize` before the `%.1f` rendering: an exact byte count as
   * text, or the size in kilobytes or megabytes as an exact quotient.
   */
  datatype SizeLabel = Bytes(text: string) | Kilobytes(amount: real) | Megabytes(amount: real)

  const KiB: nat := 1024
  const MiB: nat := 1024 * 1024

  class ArchiveItem {
    const file: FileInfo
    const name: string
    const size: nat
    /** `lastModified` in milliseconds; `getFormattedDate` is not modelled. */
    const date: int
    var viewCount: nat
    var password: Option<string>

    constructor (f: FileInfo)
      ensures file == f && name == f.name && size == f.length && date == f.lastModified
      ensures viewCount == 0 && password == None
    {
      file := f;
      name := f.name;
      size := f.length;
      date := f.lastModified;
      viewCount := 0;
      password := None;
    }

    /** `incrementViewCount`: exactly one more view, nothing else changes. */
    method IncrementViewCount()
      modifies this`viewCount
      ensures viewCount == old(viewCount) + 1
    {
      viewCount := viewCount + 1;
    }

    /** `getPassword`: null is `None`. */
    function GetPassword(): Option<string>
      reads this
    {
      password
    }

    /** `hasPassword`: a password is present and not empty. */
    predicate HasPassword()
      reads this
    {
      password.Some? && password.value != []
    }

    /** `setPassword`: the value given is what `getPassword` returns; "" or null leaves no usable password. */
    method SetPassword(p: Option<string>)
      modifies this`password
      ensures GetPassword() == p
      ensures HasPassword() <==> p.Some? && |p.value| > 0
    {
      password := p;
    }

    /**
     * `getFormattedSize`: the unit is bytes below 1024, kilobytes below
     * 1024 * 1024, megabytes from there on; a byte count is printed exactly,
     * followed by " B", and reads back as the size.
     */
    function FormattedSize(): (r: SizeLabel)
      ensures r.Bytes? <==> size < KiB
      ensures r.Kilobytes? <==> KiB <= size < MiB
      ensures r.Megabytes? <==> MiB <= size
      ensures r.Bytes? ==> r.text == NatToString(size) + " B"
      ensures r.Bytes? ==>
                EndsWith(r.text, " B") && AllDigits(r.text[..|r.text| - 2])
                && ParseNat(r.text[..|r.text| - 2]) == size
      ensures r.Kilobytes? ==> 1.0 <= r.amount < 1024.0 && r.amount * 1024.0 == size as real
      ensures r.Megabytes? ==> 1.0 <= r.amount && r.amount * (1024.0 * 1024.0) == size as real
    {
      if size < KiB then
        ParseNatToString(size);
        var text := NatToString(size) + " B";
        assert text[..|text| - 2] == NatToString(size);
        Bytes(text)
      else if size < MiB then
        Kilobytes(size as real / 1024.0)
      else
        Megabytes(size as real / (1024.0 * 1024.0))
    }
  }
}
