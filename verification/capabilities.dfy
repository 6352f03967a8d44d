/**
 * The constant answers the backend gives about itself: the groups it can
 * classify into, the filters it understands and the package file type it
 * installs.
 */
module Capabilities {
  import opened PkEnums

  /** The twenty-one groups a section can be classified into. */
  function GetGroups(): (r: set<Group>)
    ensures forall g :: g in r <==> !(g.UnknownGroup? || g.Education? || g.Fonts? || g.Repos? || g.Servers? || g.Virtualization?)
  {
    { Accessories, AdminTools, Communication, Documentation, DesktopGnome, DesktopKde,
      DesktopOther, Electronics, Games, Graphics, Internet, Legacy, Localization,
      Multimedia, Network, Other, Programming, Publishing, Science, System, Group.Collections }
  }

  /** The positive half of five filter pairs, and none of the negated forms. */
  function GetFilters(): (r: set<Filter>)
    ensures forall f :: f in r <==> !(f.NotInstalled? || f.NotGui? || f.NotDevelopment? || f.NotFree? || f.NotCollections?)
  {
    { Gui, Filter.Installed, Development, Free, Filter.Collections }
  }

  /** Debian archives are the only package files it handles. */
  function GetMimeTypes(): (r: string)
    ensures r == "application/x-deb"
  {
    "application/x-deb"
  }
}
