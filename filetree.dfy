/** The filesystem as the projector sees it: a finite tree of named entries
    whose directory listings are either readable (in listing order) or fail. */
module FileTree {
  import opened Text
  import opened Paths

  /** One directory entry, after symbolic links are resolved: a symlink to a
      directory is a `Dir`, one to a file a `File`, and one whose target cannot
      be stat'ed is `Dangling`. */
  datatype Node =
    | File(name: string)
    | Dir(name: string, listing: Listing)
    | Dangling(name: string)

  /** What reading a directory yields: its entries, or an error. */
  datatype Listing = Entries(entries: seq<Node>) | Unreadable

  /** A name the one-line-per-entry encoding can carry and decode again: a
      clean component with no newline that does not begin with a tab. */
  predicate ValidName(n: string)
  {
    IsComponent(n) && Newline !in n && n[0] != Tab
  }

  predicate ValidNames(cs: seq<string>)
  {
    forall m :: 0 <= m < |cs| ==> ValidName(cs[m])
  }

  /** Dotfiles: names starting with ".". */
  predicate Hidden(n: string)
  {
    |n| > 0 && n[0] == '.'
  }

  predicate NodeNamed(n: Node)
    decreases n, 1
  {
    ValidName(n.name) && (n.Dir? ==> ListingNamed(n.listing))
  }

  /** `ReadDir` lists each name of a directory once. */
  predicate DistinctNames(es: seq<Node>)
  {
    forall a, b :: 0 <= a < b < |es| ==> es[a].name != es[b].name
  }

  /** Every name anywhere in the listing is a `ValidName`, and no directory
      lists a name twice. */
  predicate ListingNamed(l: Listing)
    decreases l, 0
  {
    l.Entries? ==>
      && (forall i :: 0 <= i < |l.entries| ==> NodeNamed(l.entries[i]))
      && DistinctNames(l.entries)
  }
}
