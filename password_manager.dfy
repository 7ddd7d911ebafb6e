/**
 * PasswordManager: archive passwords kept under the archive's file name in
 * the private "archive_passwords" preferences, seen as an in-memory map.
 */
module Passwords {
  import opened Common

  class PasswordManager {
    /** The preferences file: archive file name to password. */
    var prefs: map<string, string>

    /** Opens the store with what earlier runs left in it. */
    constructor (stored: map<string, string>)
      ensures prefs == stored
    {
      prefs := stored;
    }

    /** `getPassword`: the stored password, or null (`None`) when there is none. */
    function GetPassword(fileName: string): (r: Option<string>)
      reads this
      ensures r.None? <==> fileName !in prefs
      ensures r.Some? ==> r.value == prefs[fileName]
    {
      if fileName in prefs then Some(prefs[fileName]) else None
    }

    /** `hasPassword`: an entry is present, that is, `getPassword` is not null. */
    predicate HasPassword(fileName: string)
      reads this
      ensures HasPassword(fileName) <==> GetPassword(fileName).Some?
    {
      fileName in prefs
    }

    /** `savePassword`: afterwards `getPassword(fileName)` is `password`; every other name is untouched. */
    method SavePassword(fileName: string, password: string)
      modifies this
      ensures prefs == old(prefs)[fileName := password]
      ensures GetPassword(fileName) == Some(password)
      ensures forall f :: f != fileName ==> GetPassword(f) == old(GetPassword(f))
    {
      prefs := prefs[fileName := password];
    }

    /** `removePassword`: afterwards `getPassword(fileName)` is null; every other name is untouched. */
    method RemovePassword(fileName: string)
      modifies this
      ensures prefs == old(prefs) - {fileName}
      ensures GetPassword(fileName) == None && !HasPassword(fileName)
      ensures forall f :: f != fileName ==> GetPassword(f) == old(GetPassword(f))
    {
      prefs := prefs - {fileName};
    }
  }

  /** Two saves under one name: the second value wins. */
  method SaveTwiceKeepsLast(store: PasswordManager, fileName: string, first: string, second: string)
    modifies store
    ensures store.GetPassword(fileName) == Some(second)
    ensures forall f :: f != fileName ==> store.GetPassword(f) == old(store.GetPassword(f))
  {
    store.SavePassword(fileName, first);
    store.SavePassword(fileName, second);
  }
}
