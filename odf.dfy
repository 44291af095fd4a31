/** The ILWIS-3 object definition file (an ini file of sections and keys)
    as the connectors read and write it through `_odf`. */
module Odf {
  import opened Text

  type Entries = map<(string, string), string>

  /** IniFile::value: the value stored under section and key, or sUNDEF
      when there is none. */
  function ValueOf(entries: Entries, section: string, key: string): (v: string)
    ensures (section, key) in entries ==> v == entries[(section, key)]
    ensures (section, key) !in entries ==> v == SUndef
  {
    if (section, key) in entries then entries[(section, key)] else SUndef
  }

  /** Setting a key makes it read back, and leaves every other key as it
      was. */
  lemma ValueOfSet(entries: Entries, section: string, key: string, value: string, s: string, k: string)
    ensures ValueOf(entries[(section, key) := value], s, k)
            == if (s, k) == (section, key) then value else ValueOf(entries, s, k)
  {
  }

  /** An open object definition file: the keys as they are now, and the
      keys as last written to disk by store(). */
  class OdfFile {
    var entries: Entries
    var stored: Entries

    constructor(onDisk: Entries)
      ensures entries == onDisk && stored == onDisk
    {
      entries := onDisk;
      stored := onDisk;
    }

    function Value(section: string, key: string): string
      reads this
    {
      ValueOf(entries, section, key)
    }

    method SetKeyValue(section: string, key: string, value: string)
      modifies this
      ensures entries == old(entries)[(section, key) := value]
      ensures stored == old(stored)
    {
      entries := entries[(section, key) := value];
    }

    method Store()
      modifies this
      ensures stored == entries && entries == old(entries)
    {
      stored := entries;
    }
  }
}
