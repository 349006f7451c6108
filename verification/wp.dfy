/** The WordPress library functions the plugin calls but whose code is not
    part of this model, passed in as opaque string transformers, and PHP's
    notion of an "empty" string. */
module Wp {
  import Options

  /** `sanitize_text_field`, `sanitize_title`, `esc_url_raw`, `esc_attr`,
      `esc_html` and `rawurlencode`, each an arbitrary total function. */
  datatype Library = Library(
    sanitizeText: string -> string,
    sanitizeTitle: string -> string,
    escUrlRaw: string -> string,
    escAttr: string -> string,
    escHtml: string -> string,
    rawUrlEncode: string -> string)

  /** PHP `empty()` and falsiness on a string: `""` and `"0"`. */
  predicate Empty(s: string) {
    s == "" || s == "0"
  }

  /** PHP `empty()` on a possibly absent string (unset or null is empty). */
  predicate EmptyOpt(s: Options.Option<string>) {
    s.None? || Empty(s.value)
  }
}
