/**
 * The .NET framework and library calls the translators make and whose code is not
 * part of this model. Each is a total function supplied by the caller; a parser's
 * None stands for the exception it throws.
 */
module Platform {
  import opened Wrappers
  import opened CommitTypes
  import opened Xml
  import opened Json

  datatype Library = Library(
    htmlDecode: string -> string,          // HttpUtility.HtmlDecode on a non-null string
    urlDecode: string -> string,           // HttpUtility.UrlDecode on a non-null string
    parseXml: string -> Option<XDocument>, // XDocument.Parse
    parseJson: string -> Option<JToken>,   // the token JObject.Parse reads
    parseDate: string -> Option<Timestamp>, // DateTimeOffset.Parse
    formatToken: JToken -> string)         // JToken.ToString() of a token that is not a string or null
}
