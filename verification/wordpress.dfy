/** The WordPress, ACF and translation-service collaborators, reduced to the
    data they exchange with the plugin. Their behaviour enters the model only
    as function parameters. */
module WordPress {
  import opened Php

  /** A `WP_Error`: a machine code and a human message. */
  datatype WpError = WpError(code: string, message: string)

  datatype WpResult<+T> = Ok(value: T) | Err(error: WpError)

  /** The error both the WPML integration and the post helper return for a
      post id with no post. */
  const InvalidPost := WpError("invalid_post", "Invalid post ID")

  /** The outcome of the translation service: `['success' => true,
      'content' => …]` or `['success' => false, 'error' => …]`. */
  datatype Translation = Translated(content: string) | TranslateFailed(error: string)

  /** `translate($text, $target_language)`. The service receives whatever
      value the caller hands it. */
  type Translator = (Value, string) -> Translation

  /** What ACF's `get_field_object` returns for a field: its storage key,
      its type name and its label. */
  datatype FieldObject = FieldObject(key: string, ftype: string, labelText: string)

  /** `get_field_object($key)`; `None` when ACF knows no such field. */
  type FieldLookup = Key -> Option<FieldObject>

  /** One `update_field($selector, $value, $post_id)` call. */
  datatype FieldWrite = FieldWrite(selector: Key, value: Value)

  /** The post fields the plugin reads. */
  datatype Post = Post(title: string, content: string, excerpt: string, postType: string)

  // ACF field type names the walkers dispatch on.
  const TextTypes: set<string> := {"text", "textarea", "wysiwyg"}
  const Repeater := "repeater"
  const FlexibleContent := "flexible_content"
  const Group := "group"
  const LayoutKey: Key := Name("acf_fc_layout")
}
