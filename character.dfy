/**
 * AlphaPaginationCharacter (src/AlphaPaginationCharacter.php): one entry of the
 * pagination index. Its label and value are fixed at construction; its
 * `active` and `enabled` flags are updated in place while the index is built.
 */
module CharacterObjects {
  import opened PhpStrings
  import opened PagerConfig
  import opened ClassAttributes

  /** The fields of a character at one moment: what the cache stores and what specifications talk about. */
  datatype CharState = CharState(labelText: string, value: string, enabled: bool, active: bool)

  /** The options array a link is built with. `external` stands for the 'external' key being set. */
  datatype LinkOptions = LinkOptions(attributes: Attributes, html: bool, query: map<string, string>, external: bool)

  /** What build() produces: a link__alpha_pagination render array, or the inactive span. */
  datatype Render =
    | Link(text: string, path: string, options: LinkOptions)
    | InactiveSpan(text: string)

  class Character {
    /** The AlphaPagination object the character belongs to; only its options and tables are consulted. */
    const pager: Pager
    const labelText: string
    const value: string
    var active: bool
    var enabled: bool

    constructor (pager: Pager, labelText: string, value: string)
      ensures this.pager == pager && this.labelText == labelText && this.value == value
      ensures !active && !enabled
    {
      this.pager := pager;
      this.labelText := labelText;
      this.value := value;
      active := false;
      enabled := false;
    }

    function State(): (s: CharState)
      reads this
      ensures s.labelText == labelText && s.value == value && s.enabled == enabled && s.active == active
    {
      CharState(labelText, value, enabled, active)
    }

    function IsActive(): bool
      reads this
    {
      active
    }

    /** isAll: the value is the configured "All" value ('all' unless set). */
    function IsAll(): (r: bool)
      ensures r <==> value == pager.GetOption("paginate_all_value", "all")
    {
      pager.AllValue() == value
    }

    /** isEnabled: an "All" or active character is always enabled; any other one exactly when its flag is set. */
    function IsEnabled(): (r: bool)
      reads this
      ensures active ==> r
      ensures IsAll() ==> r
      ensures !active && !IsAll() ==> (r <==> enabled)
    {
      IsAll() || IsActive() || enabled
    }

    /** isLink: never for the active character; always for an inactive "All"; otherwise when enabled. */
    function IsLink(): (r: bool)
      reads this
      ensures active ==> !r
      ensures !active && IsAll() ==> r
      ensures r <==> !active && (IsAll() || enabled)
    {
      !active && (IsEnabled() || IsAll())
    }

    function IsNumeric(): bool {
      pager.IsNumeric(value)
    }

    /** setEnabled: only the enabled flag changes; the same object is returned. */
    method SetEnabled(enabled: bool) returns (self: Character)
      modifies this
      ensures this.enabled == enabled && active == old(active)
      ensures self == this
    {
      this.enabled := enabled;
      self := this;
    }

    /** setActive: only the active flag changes; the same object is returned. */
    method SetActive(active: bool) returns (self: Character)
      modifies this
      ensures this.active == active && enabled == old(enabled)
      ensures self == this
    {
      this.active := active;
      self := this;
    }

    /**
     * buildLink() with no extra options. `query` is drupal_get_query_parameters(),
     * `path` the token-replaced 'paginate_link_path', `parsed` what
     * parseAttributes makes of 'paginate_link_attributes', `clean` the CSS
     * identifier cleaner.
     */
    method BuildLink(query: map<string, string>, path: string, parsed: map<string, string>, clean: string -> string)
      returns (r: Render)
      ensures r.Link? && r.text == labelText && r.path == path && r.options.query == query && !r.options.html
      ensures r.options.external <==> Truthy(pager.GetOption("paginate_link_external", "")) || (Truthy(path) && path[0] == '#')
      ensures r.options.attributes.classes == WithClasses(Attributes(None, map[]), Processed([pager.GetOption("paginate_link_class", "")], clean)).classes
      ensures "class" !in r.options.attributes.others
      ensures r.options.attributes.others ==
                if Truthy(pager.GetOption("paginate_link_attributes", "")) then parsed - {"class"} else map[]
    {
      var attributes := Attributes(None, map[]);
      var _, withClasses := AddClasses([pager.GetOption("paginate_link_class", "")], attributes, clean);
      var external := Truthy(pager.GetOption("paginate_link_external", "")) || (Truthy(path) && path[0] == '#');
      if Truthy(pager.GetOption("paginate_link_attributes", "")) {
        var extra := parsed - {"class"};
        withClasses := withClasses.(others := withClasses.others + extra);
      }
      r := Link(labelText, path, LinkOptions(withClasses, false, query, external));
    }

    /** build(): a link exactly when isLink holds, otherwise the inactive span showing the label. */
    method Build(query: map<string, string>, path: string, parsed: map<string, string>, clean: string -> string)
      returns (r: Render)
      ensures r.Link? <==> IsLink()
      ensures r.text == labelText
      ensures !r.Link? ==> r == InactiveSpan(labelText)
      ensures r.Link? ==> r.path == path && r.options.query == query && !r.options.html
      ensures r.Link? ==> (r.options.external <==> Truthy(pager.GetOption("paginate_link_external", "")) || (Truthy(path) && path[0] == '#'))
      ensures r.Link? ==> r.options.attributes.classes == WithClasses(Attributes(None, map[]), Processed([pager.GetOption("paginate_link_class", "")], clean)).classes
      ensures r.Link? ==>
        r.options.attributes.others == (if Truthy(pager.GetOption("paginate_link_attributes", "")) then parsed - {"class"} else map[])
    {
      if IsLink() {
        r := BuildLink(query, path, parsed, clean);
      } else {
        r := InactiveSpan(labelText);
      }
    }
  }
}
